# Verified models of Envoy's stateful helpers

This project models seven parts of the repository that keep state, do bit
arithmetic or run a search, and proves what they guarantee over all inputs and
all runs. To check every module, use `dafny verify dfyconfig.toml`.

| files | part of the system |
|---|---|
| `Registry.dfy`, `RegistryRuns.dfy`, `RegistryLookups.dfy`, `RegistryReplacements.dfy` | the factory registry: names, aliases, versions and the index by configuration type |
| `Bytes.dfy`, `BufferCodec.dfy` | integers of partial width in a buffer |
| `Text.dfy`, `ListenerRewriter.dfy`, `ListenerLines.dfy`, `ListenerTheorems.dfy`, `ListenerText.dfy`, `ListenerLimits.dfy` | rewriting the listener addresses of a YAML file |
| `HotRestarter.dfy`, `HotRestarterRuns.dfy`, `HotRestarterEvents.dfy` | the supervisor that hot-restarts Envoy |
| `Intersphinx.dfy`, `IntersphinxTheorems.dfy`, `IntersphinxFetch.dfy`, `IntersphinxOrder.dfy`, `IntersphinxLoads.dfy` | the inventory index of the documentation build, kept beside its cache |
| `RelatedFiles.dfy`, `RelatedPaths.dfy`, `RelatedSymmetry.dfy`, `RelatedRules.dfy` | the script that finds the files related to a file |
| `InlineHeaders.dfy` | the slots of custom inline headers |

Code that updates fields, lists or dictionaries in place is a class or a method
over an array, proved equal to a function on values; the theorems are about
those functions. A loop over a hash map takes its keys in an arbitrary order.

## The main results

- Registry: in every run of registrations (failed ones included), disablings
  and lookups, an alias and its canonical name agree in all maps, names are never
  freed, and a name gives its factory until a step disables it by one of its names,
  and nothing from then on. The index by type is the same for every order of iteration.
- Registry, against its comments, each with an input that shows it: disabling by one
  name reaches every name of a factory if and only if the factory has a name of its own
  or was registered under that name only. A disabled factory is still found by type if
  and only if the index had been built before and knew it, or the factory has no name
  of its own and, when the index is built, is enabled under another name as the only
  one of its type. A test replacement is undone by its restore closure if and only if
  its name was free or held by an enabled factory of that name, and no deprecated name
  is new: new ones keep the test factory.
- Buffer: the displaced copy, byte swap and "or" with a shifted mask compute the
  two's-complement value of the bytes, for every width, order, signedness and
  host; lists of integers survive a round trip, each exactly if it fits its width.
- Listener rewriter: it succeeds if and only if an order-preserving assignment of
  the listeners to blocks exists, and picks the pointwise least one, in every file
  whose blocks keep the keys of their lines when rewritten. The two conditions on file
  and values come with inputs that fail without them. That only the value lines of
  matched blocks change holds for every file and all values, also when it fails.
- Supervisor: in every run the pid list is exactly the unreaped children; it exits
  0 by itself if and only if every child ever forked exited with code 0. Which signals each
  event sends to which children, in which order, and the state it leaves, are given exactly.
- Intersphinx: over every run of loads at different seconds no load raises, and the two
  inventories always equal the merge of the whole cache, whose inventories are never
  changed. The order in which the fetches of a load complete does not change the main
  inventory, as long as the unnamed groups keep theirs.
- Related files: if the script leads from a to b, it leads back if and only if a
  exists, b has at least three path elements, and a is plain: `/include/envoy/` occurs
  in it at most right after the location of the repository, and `include-envoy/` does
  not follow there. Emitted are exactly the existing files that a line of the script names.

## How the source is read

- Registry: a factory is its address, name and configuration type. `ASSERT` is not
  a precondition, since release builds drop it: the results hold without it. An
  exception is a flag `threw`. Whether a deprecated name is allowed is a parameter, and so is
  whether messages of level info are logged: only then are their arguments evaluated, among
  them a displaced factory pointer that may be null.
- Buffer: the buffer is a byte sequence; `add`, `drain`, `copyOut` and `length` do what their
  comments say. `Size` is at least 1, and the byte order is given.
- Listener rewriter: lines are strings and keys are found as substrings. "Settled" means that in
  every block each key on a value line occurs already up to the key of the value, as it does in
  files with one key on each line; "plain" means that a listener's values hold no key text and
  no line end. A port is the text that `str` gives.
- Supervisor: each handler is one atomic step. What children do is input: the children
  found ended in each polling pass. A fork never returns the pid of an unreaped child.
- Intersphinx: what a fetch would give is input. Each group's fetch is one step, and the groups
  complete in any order. An absent and an empty name are the same.
- Inline headers: one registry object stands for one header map type. Here, too, `ASSERT` is
  not a precondition: the results hold for registrations after finalizing as well.

## Model

| member | source | states |
|---|---|---|
| Registry.FactoryRegistry.RegisterFactory | envoy/envoy/registry/registry.h:215-244 | throws exactly if the name is taken, and then changes nothing; else the factory, version and alias entries are added |
| Registry.FactoryRegistry.Register | envoy/envoy/registry/registry.h:501-515 | the constructor without deprecated names throws exactly on a clash and gives the state that `Registered` describes |
| Registry.FactoryRegistry.RegisterWithAliases | envoy/envoy/registry/registry.h:521-571 | the constructors with deprecated names throw exactly if one of the names clashes, and leave the names before the clash registered |
| Registry.FactoryRegistry.RegisterAliases | envoy/envoy/registry/registry.h:529-532 | the loop over the deprecated names, stopping at the first one taken |
| Registry.ClashMeaning | envoy/envoy/registry/registry.h:217-221 | registration fails exactly if a name is taken already or given twice |
| Registry.FactoryRegistry.DisableFactory | envoy/envoy/registry/registry.h:251-273 | whatever the order of the alias map, the canonical name and its aliases are nulled; returns whether the canonical name is registered |
| Registry.FactoryRegistry.BuildFactoriesByType | envoy/envoy/registry/registry.h:343-372 | in any order of iteration: a non-empty type maps to its only enabled factory, to null if it has several, and is absent if it has none |
| Registry.IndexUnique | envoy/envoy/registry/registry.h:343-372 | that description determines the index |
| Registry.IndexStep | envoy/envoy/registry/registry.h:346-368 | visiting any further name keeps the index right for the names visited, aliases not counting twice |
| Registry.FactoryRegistry.GetFactoryByType | envoy/envoy/registry/registry.h:205-210 | the first lookup builds the index from the current factories, later ones read it unchanged |
| Registry.FactoryRegistry.ReplaceFactoryForTest | envoy/envoy/registry/registry.h:390-445 | the factory displaces what its name held, null or not, takes its deprecated names, and the index is rebuilt; fails exactly where the process dies |
| Registry.FactoryRegistry.RestoreForTest | envoy/envoy/registry/registry.h:445-480 | the replacement is removed, the displaced factory put back under its own name, the mappings put back, the index rebuilt |
| RegistryRuns.AliasesAgreeInEveryRun | envoy/envoy/registry/registry.h:215-305 | in every run canonicalFactoryName is idempotent, and a name and its canonical name have the same registration, pointer, version and lookup result |
| RegistryRuns.RunConsistent | envoy/envoy/registry/registry.h:496-571 | the agreement of the maps is kept by every run from every consistent state |
| RegistryRuns.RegistrationTakesEffect | envoy/envoy/registry/registry.h:521-571 | without a clash, exactly the factory's names, own and deprecated, are given to it, with version and canonical link; every other name is as before |
| RegistryRuns.FailureKeepsThePrefix | envoy/envoy/registry/registry.h:521-571 | a failing constructor does exactly what registering the names before the first clash does |
| RegistryRuns.DisableNullsExactly | envoy/envoy/registry/registry.h:246-273 | exactly the names sharing the argument's canonical name become null, and true is returned exactly if the argument is registered |
| RegistryRuns.NothingComesBack | envoy/envoy/registry/registry.h:246-250 | no run frees a name, changes its factory or enables it again, nor changes an index once built |
| RegistryRuns.FoundUntilDisabled | envoy/envoy/registry/registry.h:251-305 | over every run a registered name keeps its canonical name, and getFactory returns for it what it returned before, until a step disables a name with the same canonical name; then null |
| RegistryLookups.LookupFindsRegistered | envoy/envoy/registry/registry.h:278-316 | a registered factory is found under each of its names until one is disabled, under a deprecated name exactly if the runtime allows that name for the factory's own |
| RegistryLookups.NeverRegistered | envoy/envoy/registry/registry.h:278-282 | a name that no registration of a run gives is not found |
| RegistryLookups.PlainRegistrationTakesEffect | envoy/envoy/registry/registry.h:501-515 | the constructor without deprecated names gives a free name to the factory, with no version and no link, and changes nothing else |
| RegistryRuns.DisableReachesEveryNameIff | envoy/envoy/registry/registry.h:246-273 | all names of a factory are disabled if and only if it has a name of its own or only the name disabled |
| RegistryRuns.NamelessFactorySurvives | envoy/envoy/registry/registry.h:522-532 | a nameless factory with two aliases stays enabled under the second when the first is disabled, and is found by type |
| RegistryRuns.FoundByTypeAfterDisableIff | envoy/envoy/registry/registry.h:205-296 | after disabling any factory, and any further run, a lookup by type returns it if and only if the index had been built before and knew it, or it is nameless and the only enabled factory of its type when the index is built |
| RegistryRuns.DisabledFactoryIsFound | envoy/envoy/registry/registry.h:205-296 | a run of registering, looking up by type and disabling, after which the lookup by type returns the disabled factory |
| RegistryReplacements.RestoreUndoesReplaceIff | envoy/envoy/registry/registry.h:383-480 | restoring undoes replacing if and only if the name was free or held by an enabled factory of that name, and no deprecated name was free; what is left otherwise |
| RegistryReplacements.ReplaceSucceedsIff | envoy/envoy/registry/registry.h:396-438 | a replacement goes through exactly if no null pointer is logged, its name passes the deprecation check, and no other factory holds a deprecated name |
| RegistryReplacements.ReplacementTakesEffect | envoy/envoy/registry/registry.h:396-443 | the test factory holds its names, the deprecated ones mapped to its own; every other name is as before; the index is rebuilt |
| RegistryReplacements.RestoreSucceeds | envoy/envoy/registry/registry.h:445-480 | in consistent states, and if no name is given twice, the closure never aborts |
| RegistryReplacements.RepeatedNameAborts | envoy/envoy/registry/registry.h:458-472 | a deprecated name given twice makes the closure abort |
| RegistryReplacements.ReplacedAliasIsLost | envoy/envoy/registry/registry.h:390-480 | a reachable state in which replacing an alias and restoring loses the alias |
| RegistryReplacements.TestAliasStays | envoy/envoy/registry/registry.h:414-480 | a deprecated name installed by a test still gives the test factory after restoring |
| RegistryReplacements.MappingsAreRestored | envoy/envoy/registry/registry.h:414-476 | the map of deprecated names is given back whenever no name is given twice |
| RegistryReplacements.NestedReplacementsRestore | envoy/envoy/registry/registry.h:390-480 | every well-nested series of replacements without deprecated names leaves the registry as it was, with an index built afresh |
| BufferCodec.AssembleIsMeaning | envoy/envoy/buffer/buffer.h:346-367 | displaced copy, byte swap and mask give the value that the bytes spell, zero- or sign-extended, on any host |
| BufferCodec.SignExtension | envoy/envoy/buffer/buffer.h:357-367 | "or" with the shifted mask turns the pattern of Size bytes into that of the type |
| BufferCodec.ConvertedLoad | envoy/envoy/buffer/buffer.h:367 | load and byte swap read memory in the requested order on any host |
| BufferCodec.Positional | envoy/envoy/buffer/buffer.h:338-368 | what bytes spell in either order, byte by byte |
| BufferCodec.UnderflowIsExact | envoy/envoy/buffer/buffer.h:342-344 | the underflow check is exact if start + Size does not wrap; what happens if it wraps |
| BufferCodec.WrittenSpells | envoy/envoy/buffer/buffer.h:434-441 | writeInt appends the bytes that spell the low Size bytes of the value in the requested order |
| BufferCodec.ReadBackWritten | envoy/envoy/buffer/buffer.h:338-441 | reading back gives a value that fits Size bytes and has the same low Size bytes, and the same value if and only if it fits |
| BufferCodec.WriteBackRead | envoy/envoy/buffer/buffer.h:338-441 | writing what was read gives the same bytes, signed or not |
| BufferCodec.ListRoundTrip | envoy/envoy/buffer/buffer.h:393-459 | any list written and drained in the same formats comes back, with nothing left over |
| Bytes.LowIsRemainder | envoy/envoy/buffer/buffer.h:434-441 | cutting a number to Size bytes is taking it modulo 256^Size, for negative numbers too |
| BufferCodec.Buffer.PeekInt | envoy/envoy/buffer/buffer.h:338-368 | the value of the bytes at start, or an exception if they are not there |
| BufferCodec.Buffer.DrainInt | envoy/envoy/buffer/buffer.h:393-398 | the value of the first bytes, which are removed; an exception leaves the buffer alone |
| BufferCodec.Buffer.WriteInt | envoy/envoy/buffer/buffer.h:434-441 | appends Size bytes that spell the low Size bytes of the value, and keeps what was there |
| ListenerRewriter.UpdateListeners | envoy/tools/socket_passing.py:40-74 | the loops over listeners and lines, overwriting lines in place, give outcome, lines and positions of `Rewrite` |
| ListenerRewriter.FindBlock | envoy/tools/socket_passing.py:46-66 | the inner loops find the first block of the kind at or after an index |
| ListenerRewriter.ReplaceAt | envoy/tools/socket_passing.py:48-64 | the value lines of a block are substituted |
| ListenerTheorems.SucceedsIffAssignable | envoy/tools/socket_passing.py:40-74 | success if and only if a strictly increasing assignment of listeners to blocks of their kind exists from line 1 on (and no address is empty); the positions are the pointwise least |
| ListenerTheorems.LeftmostSuccess | envoy/tools/socket_passing.py:40-74 | any assignment implies success, at positions no later |
| ListenerTheorems.SuccessIsAssignment | envoy/tools/socket_passing.py:40-74 | the positions of a success are an assignment to the blocks of the original file |
| ListenerTheorems.RewriteWrites | envoy/tools/socket_passing.py:41-76 | on success the k-th matched block carries the k-th listener, and every other line is unchanged |
| ListenerTheorems.CarriesReadsBack | envoy/tools/socket_passing.py:48-64 | in every file, reading the values of a rewritten block gives the listener's path, or address and port |
| ListenerTheorems.OnlyMatchedLinesChange | envoy/tools/socket_passing.py:41-76 | for every file, all values and every outcome: positions increase, one for each listener up to the failure, and no line changes but the value lines at them |
| ListenerTheorems.FailureOutcome | envoy/tools/socket_passing.py:55-74 | which failure it is: the first listener without a position has no address, or no block is left for it |
| ListenerText.SuccessWrites | envoy/tools/socket_passing.py:45-66 | the text that each listener leaves in its block: quoted path, quoted address without its brackets, port |
| ListenerText.BlockIs | envoy/tools/socket_passing.py:47-60 | the texts by which a block is found |
| ListenerText.SocketFile | envoy/tools/socket_passing.py:53-66 | the whole text of a file with one socket block, for every indentation, old value, bracketed address and port |
| ListenerText.PipeFile | envoy/tools/socket_passing.py:44-51 | the whole text of a file with one pipe block |
| ListenerLines.SubstitutedLine | envoy/tools/socket_passing.py:48-64 | on every line, substitution keeps the line up to the key and puts the value after it |
| ListenerLines.KeysAreKeptIff | envoy/tools/socket_passing.py:48-64 | substituting a value without key text keeps the keys of a line if and only if they all occur up to the substituted key |
| ListenerLines.CleanIsSettled | envoy/tools/socket_passing.py:46-66 | a file with one key on each line, and no key text in values, is settled |
| ListenerLines.ReplacedShape | envoy/tools/socket_passing.py:46-66 | rewriting a block of a settled file leaves a settled file with the same blocks |
| ListenerLimits.KeyTextInAValueMisleads | envoy/tools/socket_passing.py:46-51 | a path holding key text makes the rewriter succeed although no assignment exists |
| ListenerLimits.KeyAfterAKeyMisleads | envoy/tools/socket_passing.py:46-51 | a second key on a value line makes the rewriter fail although an assignment exists |
| HotRestarter.Supervisor.ForkAndExec | envoy/restarter/hot-restarter.py:170-186 | the epoch is passed on and counted up, the child listed; a failing fork ends the process |
| HotRestarter.Supervisor.ReapAll | envoy/restarter/hot-restarter.py:128-154 | every listed child that has ended is reaped and unlisted; tells whether one ended abnormally |
| HotRestarter.Supervisor.SigchldHandler | envoy/restarter/hot-restarter.py:120-167 | reaping, then killing all after an abnormal end, then exiting if nothing is left |
| HotRestarter.Supervisor.SigusrHandler | envoy/restarter/hot-restarter.py:108-117 | SIGUSR1 is sent to every listed pid |
| HotRestarter.Supervisor.ForceKillAllChildren | envoy/restarter/hot-restarter.py:65-78 | SIGKILL is sent to every listed pid and the list emptied |
| HotRestarter.Supervisor.AwaitChildren | envoy/restarter/hot-restarter.py:37-54 | at most TERM_WAIT_SECONDS polling rounds, ending early when nothing is left |
| HotRestarter.Supervisor.Shutdown | envoy/restarter/hot-restarter.py:20-85 | always ends the process, in the way that `Terminated` describes |
| HotRestarterRuns.EveryRun | envoy/restarter/hot-restarter.py:20-205 | while alive, the list is duplicate-free, exactly the unreaped children and not empty after a fork, all reaped children ended with 0, the i-th child has epoch i and no signal went to a reaped child; once ended, one of the stated reasons holds |
| HotRestarterRuns.ExitsZeroIffAllClean | envoy/restarter/hot-restarter.py:120-167 | exit 0 from SIGCHLD if and only if every child ever forked exited with code 0 |
| HotRestarterRuns.ShutdownOutcome | envoy/restarter/hot-restarter.py:20-85 | exit 0 if and only if every listed child is found ended in some round; else exit 1 after SIGKILL to every unreaped child; SIGTERM went to all |
| HotRestarterEvents.ChildDoes | envoy/restarter/hot-restarter.py:120-167 | SIGCHLD: exactly the ended children are reaped; no signal if all exited with 0, else one SIGKILL to each child left; when and how it ends |
| HotRestarterEvents.TerminateDoes | envoy/restarter/hot-restarter.py:20-85 | SIGTERM and SIGINT: one SIGTERM to each child, thirty rounds, one SIGKILL to each child not found ended; the exit code |
| HotRestarterEvents.UserDoes | envoy/restarter/hot-restarter.py:108-117 | SIGUSR1: exactly one SIGUSR1 to each child, and nothing else |
| HotRestarterEvents.HupDoes | envoy/restarter/hot-restarter.py:170-186 | SIGHUP: a child listed last with the next epoch, and no signal |
| HotRestarterEvents.AwaitedDoes | envoy/restarter/hot-restarter.py:37-54 | the rounds reap each child with the status of the first round that finds it ended |
| HotRestarterRuns.PollAllPolled | envoy/restarter/hot-restarter.py:131-137 | a pass reaps exactly the listed children that ended, and waitpid never fails |
| HotRestarterRuns.UserKeeps | envoy/restarter/hot-restarter.py:108-117 | SIGUSR1 reaches every unreaped child and nothing else changes |
| Intersphinx.InventoryAdapter.FetchInventoryGroup | envoy/docs/_ext/intersphinx_custom.py:205-227 | caches the first inventory that has to be read and is not empty; tells whether there was one |
| IntersphinxFetch.GroupCaches | envoy/docs/_ext/intersphinx_custom.py:205-227 | the first place that is local, or whose cached inventory is missing or older than the limit in days, and gives a non-empty inventory is cached in place or at the end; if there is none, nothing changes |
| IntersphinxFetch.LoadCaches | envoy/docs/_ext/intersphinx_custom.py:205-253 | the same for one group among all groups of a load |
| IntersphinxFetch.LoadUpdatesIff | envoy/docs/_ext/intersphinx_custom.py:216-255 | a load rebuilds the inventories exactly if some group gives one |
| IntersphinxFetch.RemoteLocation | envoy/docs/_ext/intersphinx_custom.py:212-216 | a place not given is remote exactly if its URI is |
| IntersphinxFetch.DefaultLocation | envoy/docs/_ext/intersphinx_custom.py:212-213 | a place not given is objects.inv below the URI, with or without a slash at its end |
| Intersphinx.InventoryAdapter.MergeIn | envoy/docs/_ext/intersphinx_custom.py:271-272 | merges one inventory, changing only dictionaries of the main inventory or made here |
| Intersphinx.InventoryAdapter.Rebuild | envoy/docs/_ext/intersphinx_custom.py:255-272 | main and named inventory become the merge of the cache, whose dictionaries are unchanged |
| Intersphinx.InventoryAdapter.LoadMappings | envoy/docs/_ext/intersphinx_custom.py:242-272 | both inventories equal the merge of the whole cache if and only if it was rebuilt without raising, or nothing was updated and they did before; raises exactly if two named entries agree in name and time only; no cached inventory changes |
| Intersphinx.NoUpdateNoChange | envoy/docs/_ext/intersphinx_custom.py:253-255 | if no group reports an update, the cache is what it was |
| IntersphinxTheorems.MergedEntryComesFrom | envoy/docs/_ext/intersphinx_custom.py:258-272 | a merged entry comes from the last unnamed inventory holding it, else from the greatest-named one; entries nobody holds are absent |
| IntersphinxOrder.FetchOrderDoesNotMatter | envoy/docs/_ext/intersphinx_custom.py:258-272 | the main inventory does not depend on the order of the named part of the cache |
| IntersphinxTheorems.NamedIsMostRecent | envoy/docs/_ext/intersphinx_custom.py:265-270 | a name gives access to its most recently fetched inventory |
| IntersphinxTheorems.NamedExactly | envoy/docs/_ext/intersphinx_custom.py:269-270 | the names are exactly those of the cached inventories |
| IntersphinxTheorems.EachGroupDecides | envoy/docs/_ext/intersphinx_custom.py:205-253 | only the groups of a URI, in their order, decide what is cached for it |
| IntersphinxTheorems.CompletionOrderDoesNotMatter | envoy/docs/_ext/intersphinx_custom.py:247-253 | orders of completion that agree for a URI cache the same inventory for it |
| IntersphinxOrder.FetchedUnique | envoy/docs/_ext/intersphinx_custom.py:225 | the cache keeps one inventory for each URI |
| IntersphinxOrder.FetchedParts | envoy/docs/_ext/intersphinx_custom.py:216-226 | the cache after a load is the old one refreshed in place, then the new inventories as they completed |
| IntersphinxOrder.CompletionOrderGivesSameMerge | envoy/docs/_ext/intersphinx_custom.py:247-272 | two orders of completion that keep the unnamed groups in order raise alike and merge to the same main inventory |
| IntersphinxLoads.EveryLoadSucceeds | envoy/docs/_ext/intersphinx_custom.py:242-272 | over every run of loads at increasing times with differently named groups, no load raises and the inventories are always the merge of the cache |
| IntersphinxLoads.SameSecondRaises | envoy/docs/_ext/intersphinx_custom.py:242-266 | two loads in the same second that fetch different inventories under one name: the second raises |
| IntersphinxTheorems.SortedNamedAscending | envoy/docs/_ext/intersphinx_custom.py:266 | the named inventories are merged in ascending order of name and time |
| IntersphinxTheorems.LessMeans | envoy/docs/_ext/intersphinx_custom.py:266 | names are ordered by the first character in which they differ, the shorter first |
| RelatedSymmetry.SymmetricIff | envoy/tools/find_related_envoy_files.py:34-92 | if b is emitted for a, then a is emitted for b if and only if a exists, b has three path elements and a is plain |
| RelatedSymmetry.PlainIffUndone | envoy/tools/find_related_envoy_files.py:34-44 | undoing the parse gives the argument back if and only if the argument is plain, which is a condition on its text |
| RelatedSymmetry.ShallowInterfaceIsOneWay | envoy/tools/find_related_envoy_files.py:46-92 | a whole family of files with no way back: the test of an interface right under its directory |
| RelatedSymmetry.SyntheticNameIsOneWay | envoy/tools/find_related_envoy_files.py:34-92 | a whole family of existing, deep files with no way back: interfaces given by their synthetic name |
| RelatedSymmetry.RulesLeadBack | envoy/tools/find_related_envoy_files.py:71-92 | every rule has its inverse among the rules for the files it leads to |
| RelatedSymmetry.EmittedMeans | envoy/tools/find_related_envoy_files.py:58-65 | exactly the existing files that some matching rule leads to are emitted |
| RelatedRules.EmitsExactly | envoy/tools/find_related_envoy_files.py:55-92 | emitted are exactly the existing files to which one of the script's lines, in literal text, leads from the path |
| RelatedRules.LineLeads | envoy/tools/find_related_envoy_files.py:34-92 | each line leads, in every repository, from every deep enough file it reads to the file it names |
| RelatedRules.EmittedInOrder | envoy/tools/find_related_envoy_files.py:71-92 | the paths are emitted in the order of the lines |
| RelatedSymmetry.EmittedSplits | envoy/tools/find_related_envoy_files.py:34-44 | an emitted path is split again where it was put together |
| RelatedPaths.SplitUnique | envoy/tools/find_related_envoy_files.py:39-44 | the repository root found from the end is the one in front of a path without a root |
| RelatedPaths.UnchangedIsAbsent | envoy/tools/find_related_envoy_files.py:34 | where replacing changes nothing, the replaced name does not occur |
| InlineHeaders.ValidHeaderString | envoy/envoy/http/header_map.h:28-44 | true exactly if there is no NUL, CR or LF |
| InlineHeaders.LowerInPlace | envoy/envoy/http/header_map.h:86-88 | the string is replaced by its lower-case form |
| InlineHeaders.LowerDecidesSameName | envoy/envoy/http/header_map.h:68-76 | lower-case names are equal exactly if the names are equal up to ASCII case |
| InlineHeaders.LowerKeepsValidity | envoy/envoy/http/header_map.h:68-89 | lowering keeps validity both ways and is idempotent |
| InlineHeaders.LowerIsLower | envoy/envoy/http/header_map.h:86-88 | the lower-case form is the same name up to case, without upper-case letters |
| InlineHeaders.SlotsAreABijection | envoy/envoy/http/header_map.h:718-729 | after any registrations the slots are a bijection onto 0..n-1, shared exactly by names equal up to case |
| InlineHeaders.SlotIsForGood | envoy/envoy/http/header_map.h:714-761 | the slot handed out is the old one of a known name, else the number of different names before, and every later lookup returns it |
| InlineHeaders.CustomInlineHeaderRegistry.RegisterInlineHeader | envoy/envoy/http/header_map.h:718-729 | a new name takes the next slot, a known one keeps its slot, which is returned |
| InlineHeaders.FoundExactlyIfRegistered | envoy/envoy/http/header_map.h:718-743 | a name is found if and only if a name equal to it up to case was registered, and two found names have the same slot if and only if they are equal up to case |

## Left out

- Factory categories and the registry proxies: they only forward calls.
- registeredNames: a filter and a library sort over the names.
- The log messages of the registry, one of which reads a map entry just erased, and the text of its exceptions.
- Reservation and ReservationSingleSlice: their commit only forwards to the abstract buffer and clears itself.
- Slices, watermarks, accounts and search of the buffer: declared without bodies.
- ByteOrder::Host with Size smaller than the type: its result depends on the host.
- ListenerRewriter.UpdateListeners: a backslash in a path or address, which `re.sub` reads as an escape, is taken literally.
- The HTTP request, the files and the JSON of socket_passing.py, and the wait for the admin file.
- Handlers of the supervisor that interrupt each other, and what the forked child does if it cannot be executed.
- Intersphinx.InventoryAdapter.FetchInventoryGroup: two groups with the same URI fetching at the same time are taken one after the other.
- missing_reference, URL handling, the parsing of inventory files and logging of the documentation build.
- RelatedFiles: the printing of the paths; the files that exist are a parameter.
- HeaderString, the header maps themselves and the other declarations of header_map.h: their bodies are elsewhere.
- The remaining interfaces under envoy/envoy, the example filters and the build scripts.
