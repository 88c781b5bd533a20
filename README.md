# Snapshot job configuration resolution

`snapshot.py` connects to a set of Arista switches and records the output of
show-commands on each. Before it connects anywhere it builds a *snapshot
job*: a dictionary from host name to `{tags, commands, username, password}`.
It builds it from a YAML list of configuration blocks, in three ordered
passes:

1. **Host discovery.** Every `host_db` block lists entries that map host
   names to tag lists. Each host is merged into the job as
   `{tags: set(tags), commands: []}` with the recursive `merge_dict`.
2. **Command assignment.** Every block with `snapshot_commands` reads its
   `tags`. Its commands are appended, in order, to every host whose tag set
   contains those tags.
3. **Credential assignment.** Every block with `username` reads its `tags`.
   It merges `{username, password}` into every matching host, with the
   host's entry as the primary dictionary.

`merge_dict(d1, d2)` keeps every key of either side. Two nested
dictionaries under one key are merged recursively. Any other clash is won by
`d1`, unless `d1` holds the placeholder string `'to be defined'`, in which
case `d2` wins.

The model has these modules:

- `Values`: the dynamic values of the job.
- `Merger`: `merge_dict`. `Merge` is the function, `MergeDict` is the loop.
- `Plan`: configuration blocks, and a declarative description of the
  finished job (`BuildPlan`). It also defines `Fault` and `FirstFault`, the
  `KeyError` a pass raises for a missing key.
- `Builder`: the three passes as methods over an accumulating map, proved
  equal to `BuildPlan`.
- `DiscoveryLemmas`, `AssignmentLemmas`: the step lemmas those proofs use.
- `Properties`: what the finished job promises.

A host declared twice keeps its first tag set. The two sets are not
united: `merge_dict` recurses only into dictionaries, and a set falls to the
primary-wins rule (`Properties.FirstDeclarationWins`,
`Properties.DuplicateHostKeepsFirstTags`).

## Model

| member | source | states |
|---|---|---|
| Merger.Merge | snapshot.py:21-45 | the merged dictionary has exactly the keys of both inputs |
| Merger.MergePolicy | snapshot.py:31-43 | key by key: a key of one side keeps that side's value; a clash of two dictionaries is their recursive merge; any other clash goes to `d1` unless `d1` holds `'to be defined'` |
| Merger.MergeDict | snapshot.py:29-45 | the key-by-key loop over the key union, recursing on nested dictionaries, returns `Merge(d1, d2)` whatever the enumeration order |
| Merger.MergeEmptyRight | snapshot.py:34-35 | merging with an empty secondary returns the primary |
| Merger.MergeEmptyLeft | snapshot.py:32-33 | merging an empty primary returns the secondary |
| Merger.MergeSelf | snapshot.py:37-43 | merging a dictionary with itself changes nothing, at any depth |
| Merger.MergeDisjoint | snapshot.py:30-35 | with disjoint keys the merge is the plain union |
| Merger.MergeKeepsSettledPrimary | snapshot.py:39-43 | a primary that holds no placeholder survives the merge unchanged at every depth |
| Merger.NestedExample | snapshot.py:37-38 | two nested dictionaries under one key are combined, not replaced |
| Plan.HostTags | snapshot.py:61-70 | the hosts after discovery are exactly the hosts declared in some entry |
| Plan.Discovered | snapshot.py:61-70 | the plan after pass 1 has one entry per declared host |
| Plan.AppendCommands | snapshot.py:78-79 | appending keeps the entry's keys and tags and extends its command list by exactly the given commands |
| Plan.WithCredentials | snapshot.py:87-90 | adding credentials keeps tags, commands and every other key |
| Plan.Resolve | snapshot.py:40-43 | a credential field is absent exactly when nothing was offered; otherwise it holds an offered value, and the placeholder only when every offer was the placeholder |
| Plan.Pick | snapshot.py:73-89 | a block contributes nothing to a host it does not apply to, no commands when it has none, and at most one username or password, only when it has a username |
| Plan.Settle | snapshot.py:40-43 | one merge of a credential field keeps a value that is not the placeholder, otherwise takes the offer; the result is the placeholder only if the offer is |
| Plan.Fault | snapshot.py:74-89 | a block is faulty with `tags` exactly when it has commands (pass 2) or a username (pass 3) and no tags; with `password` exactly when, in pass 3, it has a username and tags, no password, and its tags match some host |
| Plan.AfterCommands | snapshot.py:72-79 | pass 2 succeeds exactly when no block is faulty for it, keeps the set of hosts, and fails at a block with commands and no `tags` |
| Plan.AfterCredentials | snapshot.py:81-90 | pass 3 succeeds exactly when no block is faulty for it, keeps the set of hosts, and fails only at a block with a username |
| Plan.FirstFault | snapshot.py:72-90 | the error of a pass names the first faulty block and its missing key; no error exactly when no block is faulty |
| Plan.ResolvedHosts | snapshot.py:59-92 | the resolved plan has one entry per declared host |
| Builder.BuildSnapshotJob | snapshot.py:59-92 | the three passes in order return `BuildPlan(blocks)`: the declarative plan, or the first `KeyError` |
| Builder.PassesCompose | snapshot.py:59-92 | pass 2 applied to pass 1, then pass 3 applied to that, equals `BuildPlan` on every input, including the error of the pass that fails first |
| Builder.FreshEntries | snapshot.py:65-70 | every entry made by pass 1 is well formed and holds no credentials |
| Builder.CommandsKeepCredentialsOut | snapshot.py:72-79 | pass 2 adds no credentials and keeps entries well formed |
| Builder.CommandsAfterDiscovery | snapshot.py:72-79 | pass 2 on the discovered hosts gives each host the commands of the command blocks it matches |
| Builder.CommandsKeepTags | snapshot.py:72-79 | after pass 2 every host still has the tags pass 1 gave it |
| Builder.CredentialsComplete | snapshot.py:81-90 | pass 3 on the plan after pass 2 either fails with the first credential fault or resolves every host as `BuildPlan` does |
| Builder.EntryResolved | snapshot.py:65-90 | one fresh host through passes 2 and 3 has its tags, its gathered commands and its resolved credentials |
| Builder.DiscoverHosts | snapshot.py:61-70 | the loop over blocks, entries and hosts builds `Discovered` of all entries in declaration order |
| Builder.MergeHostDb | snapshot.py:63-70 | merging one block's `host_db` extends the discovered plan by its entries |
| Builder.MergeHostEntry | snapshot.py:64-70 | merging the hosts of one entry, one `merge_dict` call per host, extends the discovered plan by that entry |
| Builder.AssignCommands | snapshot.py:72-79 | the command pass returns `AfterCommands`: the first block with commands and no `tags` is the error; otherwise every host gets the commands of the blocks it matches, in block order |
| Builder.CommandBlockStep | snapshot.py:73-79 | one block of pass 2 reports a missing `tags` exactly when it is faulty; otherwise it extends every host by that block's contribution |
| Builder.AppendToMatchingHosts | snapshot.py:75-79 | a matching host gets the block's commands appended; any other host is unchanged; no host is added or removed |
| Builder.AssignCredentials | snapshot.py:81-90 | the credential pass returns `AfterCredentials`: the first faulty credential block is the error; otherwise every host gets the first settled username and password of the blocks it matches |
| Builder.CredentialBlockStep | snapshot.py:82-90 | one block of pass 3 either ends the pass with its own missing key, or extends every host by that block's credentials |
| Builder.MergeCredentialBlock | snapshot.py:82-90 | a block without `username` changes nothing; the missing key is `tags` or `password` exactly as `Fault` says; otherwise each matching host is merged with the block's credentials |
| Builder.MergeIntoMatchingHosts | snapshot.py:84-90 | the password is missing exactly when it is absent and some host matches; otherwise matching hosts are merged and the others are unchanged |
| Builder.SomeHostMatches | snapshot.py:84-86 | true exactly when some host's tags include the block's tags |
| Builder.MergeCredentials | snapshot.py:84-90 | each matching host's entry becomes `merge_dict(entry, creds)`, with the entry as primary; other hosts are unchanged |
| Builder.MergeIntoHost | snapshot.py:87-90 | only the chosen host changes, to the merge of its entry with the credentials |
| DiscoveryLemmas.HostEntriesSnoc | snapshot.py:61-63 | the entries of one more block are the old entries followed by that block's `host_db` |
| DiscoveryLemmas.DeclaredAppend | snapshot.py:61-64 | the hosts declared by two entry lists are the union of those declared by each |
| DiscoveryLemmas.FirstTagsAppend | snapshot.py:61-70 | a host's tags come from the first list that declares it |
| DiscoveryLemmas.DiscoveredEmptyEntry | snapshot.py:63-64 | an empty entry changes nothing |
| DiscoveryLemmas.MergeNewEntries | snapshot.py:65-70 | merging a second declaration of a host into its entry keeps the first entry |
| DiscoveryLemmas.ExtendLastEntry | snapshot.py:64-70 | one more host in an entry adds that host, with its own tags only if it was not declared before |
| DiscoveryLemmas.DiscoverStep | snapshot.py:64-70 | one `merge_dict` call for one host equals discovery over the entries extended by that host |
| DiscoveryLemmas.MergeFreshHost | snapshot.py:65-70 | merging a single new host entry into a plan adds it when absent and keeps the existing entry when present |
| AssignmentLemmas.GatherSnoc | snapshot.py:72-79 | what a host gathers from one more block is what it gathered before followed by that block's contribution |
| AssignmentLemmas.FirstFaultAt | snapshot.py:72-90 | a faulty block after fault-free blocks is the error of the pass |
| AssignmentLemmas.AppendCommandsTwice | snapshot.py:78-79 | appending twice is appending the concatenation |
| AssignmentLemmas.AppendNothing | snapshot.py:78-79 | appending no commands leaves the entry unchanged |
| AssignmentLemmas.ResolveSnoc | snapshot.py:87-90 | resolving one more offer is one more `merge_dict` step on that field |
| AssignmentLemmas.CredentialStep | snapshot.py:87-90 | merging `{username, password}` into an entry settles both fields and keeps every other key |
| AssignmentLemmas.CredentialFields | snapshot.py:87-90 | after the merge, `username` and `password` hold the settled values |
| AssignmentLemmas.OtherFields | snapshot.py:87-90 | after the merge, the entry has its own keys plus `username` and `password`, and its own keys are unchanged |
| AssignmentLemmas.SettledField | snapshot.py:40-43 | a field already set to a value other than the placeholder keeps it; a missing field or the placeholder takes the offered value |
| AssignmentLemmas.NoCredentialsAdded | snapshot.py:84-86 | an entry without credential offers is unchanged |
| AssignmentLemmas.CredentialBlockSkipped | snapshot.py:84-86 | a block that does not apply to a host leaves its entry as it was |
| AssignmentLemmas.CredentialBlockApplied | snapshot.py:86-90 | a block that applies to a host merges its credentials into the entry |
| AssignmentLemmas.CredentialPassStep | snapshot.py:84-90 | one fault-free block keeps the plan equal to pass 3 over the blocks so far |
| AssignmentLemmas.CredentialPassStops | snapshot.py:83-89 | a faulty credential block after fault-free ones is the error of pass 3 |
| AssignmentLemmas.PasswordFault | snapshot.py:86-89 | a credential block with tags and without a password fails exactly when some host matches it |
| AssignmentLemmas.CommandsKeepEntries | snapshot.py:72-79 | pass 2 keeps the set of hosts and every host's tags |
| AssignmentLemmas.CredentialsKeepEntries | snapshot.py:81-90 | pass 3 keeps the set of hosts and every host's tags and commands |
| AssignmentLemmas.CommandHostStep | snapshot.py:73-79 | one more block appends exactly that block's commands for the host |
| AssignmentLemmas.CommandPassDone | snapshot.py:72-79 | a fault-free pass 2 that reached every block has computed `AfterCommands` |
| AssignmentLemmas.CredentialPassDone | snapshot.py:81-90 | a fault-free pass 3 that reached every block has computed `AfterCredentials` |
| Properties.HostPlanFields | snapshot.py:65-69 | a resolved entry has its tags and commands, and `username` (`password`) exactly when one was resolved |
| Properties.PlanEntry | snapshot.py:59-92 | each host of a built plan has its first-declared tags, the commands of its matching blocks in order, and a username or password exactly when a matching block offers one |
| Properties.DeclaredHostsSpec | snapshot.py:63-64 | a host is declared exactly when some entry names it |
| Properties.HostEntriesAppend | snapshot.py:61-63 | the entries of a configuration are those of its blocks, in order |
| Properties.DeclaredByBlocks | snapshot.py:61-64 | a host is declared exactly when some block's `host_db` names it |
| Properties.PlanHosts | snapshot.py:61-70 | the hosts of a built plan are exactly the hosts named in some `host_db` |
| Properties.DiscoveredEntry | snapshot.py:65-70 | after pass 1 each host holds its first tags and an empty command list |
| Properties.FirstDeclarationWins | snapshot.py:65-70 | a host's tags are those of its earliest declaration; later ones add nothing |
| Properties.DuplicateHostKeepsFirstTags | snapshot.py:65-70 | a host declared with `[a]` and then `[b]` has tags `{a}`, not `{a, b}` |
| Properties.GatherAppend | snapshot.py:72-79 | what a host gathers from two block lists is the concatenation of each |
| Properties.GatherSingle | snapshot.py:73-79 | one block gathers its own contribution |
| Properties.GatherUnmatched | snapshot.py:77 | blocks that apply to no host give it nothing |
| Properties.CommandsInBlockOrder | snapshot.py:72-79 | a matching block's commands sit whole, in their order, between those of earlier and later blocks |
| Properties.EmptyTagsMatchAll | snapshot.py:77 | an empty tag list is a subset of every host's tags |
| Properties.EmptyTagsCommandsEverywhere | snapshot.py:72-79 | a command block with empty tags gives its commands to every host |
| Properties.ResolveFirstSettled | snapshot.py:40-43 | a field ends with the first offer that is not the placeholder |
| Properties.FirstCredentialWins | snapshot.py:81-90 | the first matching credential block decides username and password unless it holds the placeholder |
| Properties.NoEarlierCredentials | snapshot.py:82-86 | blocks that do not apply or have no username offer no credentials |
| Properties.NoMatchNoCredentials | snapshot.py:81-90 | a host no credential block applies to has neither `username` nor `password` |
| Properties.FirstFaultSkip | snapshot.py:72-90 | removing a block that is not faulty in a pass keeps whether the pass fails and the missing key; the failing index shifts past the removed block |
| Properties.NoFaultKept | snapshot.py:72-90 | inserting a fault-free block into a fault-free configuration keeps it fault free |
| Properties.FaultShifts | snapshot.py:72-90 | after inserting a fault-free block, the first fault is the same block with the same key |
| Properties.UnmatchedBlockChangesNothing | snapshot.py:72-90 | a tagged block without `host_db` that applies to no host can be removed: the build succeeds with it exactly when without it, to the same plan, and otherwise fails with the same missing key |
| Properties.CommandBlockNeedsTags | snapshot.py:73-74 | a command block without `tags` makes the build fail, at that block or an earlier faulty one |
| Properties.CredentialBlockNeedsPassword | snapshot.py:86-89 | a credential block without `password` that applies to some host makes the build fail |
| Properties.UnmatchedBlockNeverFails | snapshot.py:83-89 | a block with tags that applies to no host is never the block the build fails at, even without a password |
| Properties.BuildOutcome | snapshot.py:59-92 | the build succeeds exactly when no block is faulty in pass 2 or pass 3; a failure names a faulty block; any faulty command block makes the build fail with `tags` at a command block, even if a credential block fails earlier |
| Properties.MatchesSubset | snapshot.py:77 | `issubset`: a rule matches a host exactly when every tag it names is one of the host's tags |
| Properties.FreshEntryShape | snapshot.py:66-69 | the entry pass 1 creates has exactly `tags`, holding the host's tag set, and an empty `commands` list, and no credentials |

## Left out

- `time_stamp` (snapshot.py:11-18) reads the clock and only formats a string.
- Opening and parsing the YAML file (snapshot.py:50-57) is left out. So is the `SystemExit` on a missing file. The model starts from the parsed list of blocks.
- The `__main__` block (snapshot.py:95-137) is left out. It connects over the network through `pyeapi` and writes the report file.
- The `config_file` constant (snapshot.py:8) is only an input path.
- YAML values are typed. `tags` are lists of strings, `username` and `password` are strings, and `host_db` entries are mappings from host to tag list. The `TypeError`s Python raises for other shapes are not modelled. These include a `null` tag list, a non-dict block, and a string where a list is expected, which `set` would split into characters.
- Key iteration order is abstract. Dafny sets have no order, so every loop over a key set picks the next key with `:|`: the hosts in passes 2 and 3 (`Builder.AppendToMatchingHosts`, `Builder.SomeHostMatches`, `Builder.MergeCredentials`), the hosts of one `host_db` entry (`Builder.MergeHostEntry`), and the key union in `Merger.MergeDict`. The order cannot be observed in the result: each host is updated independently, and hosts within one entry are distinct keys.
- Object identity is not modelled. In Python, `merge_dict` shares the `tags` set and `commands` list objects of the primary entry. No two hosts ever share a list, so this does not change the job. The model has value semantics.
- Builder.MergeIntoMatchingHosts: checks for a matching host before merging anything when `password` is missing. Python evaluates `block['password']` while building the dictionary it passes to `merge_dict`, so it raises at the first matching host before merging into any host for that block. The two orders give the same outcome.
- Plan.FirstFault: models `KeyError` as `MissingKey(block index, key)`. Python's exception carries only the key.
- Python dictionary insertion order is not modelled. The job is a `map`.
