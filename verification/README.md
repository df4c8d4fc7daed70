# ftl2-scale, modelled in Dafny

ftl2-scale is a set of three scripts that stand up a fleet of cloud nodes,
benchmark FTL2 against Ansible on it, and tear the fleet down again. All three
share a resource ledger (FTL2's state store): a map from node name to the
record the provider returned for it. Only names that start with the prefix
`ftl2-scale` count as scale-test nodes.

- **Provisioning** (`provision.py`) makes sure the nodes `ftl2-scale-0` …
  `ftl2-scale-<count-1>` are in the ledger. It asks the provider to create
  only the names the ledger lacks, stops at the first failure, waits for SSH
  when it created a node outside check mode, and writes a static Ansible
  inventory of the prefixed nodes in sorted order.
- **Teardown** (`teardown.py`) destroys every prefixed node in ascending name
  order. It removes each from the ledger right after its destroy, stops at
  the first failure, and deletes the inventory once every node is gone.
- **Benchmarking** (`scale_test.py`) counts the prefixed nodes and refuses to
  run on none. It selects all registered tests or one by name. It times each
  test through Ansible and through FTL2, and records a speedup when both
  succeeded.

The model has these modules:

- `Wrappers` holds `Option`, `Result` and `Outcome`.
- `Text` models Python's `str.startswith` and its code-point string order. It
  also models decimal rendering of an index and `"\n".join` with its inverse
  split.
- `Sorting` models `sorted` as an insertion sort. It includes the one strictly
  ascending listing of a finite set.
- `Ledger` holds the state store, as a class over a map.
- `Inventory` holds the inventory file and `_write_ansible_inventory`.
- `Provision`, `Teardown` and `ScaleTest` each model one script.

The provisioning and teardown loops are imperative methods on the store and
file objects. Each is proved step by step against a recursive specification
function: `Provision.Reconcile` for provisioning and `Teardown.SweepFrom` for
teardown. The lemmas about those functions state what a whole run does.

The outside world enters as parameters:

- the provider's reply to a create, per node name;
- whether a destroy succeeds, per node name;
- whether the SSH wait succeeds;
- the outcome of an `ansible-playbook` run, per playbook;
- the outcome of an FTL2 test procedure, per test name.

These exceptions that the scripts can raise are modelled as error values:

- indexing the address list of a record that has none (`ipv4[0]`);
- a failed provider call;
- an SSH timeout;
- an unknown `--test` name;
- a speedup that divides by an FTL2 time of zero.

The exceptions the model does not cover are listed under "Left out".

In these places the model follows what the scripts actually do:

- `run_ansible` in `scale_test.py` keeps the measured time when
  `ansible-playbook` exits with a non-zero status. Only a missing playbook is
  recorded with time zero.
- `teardown.py` in check mode still removes each node from the ledger. Only
  the provider's destroy is simulated.
- With no prefixed node, `teardown.py` returns before the inventory step, so
  an existing inventory file is kept.

## Model

| member | source | states |
|---|---|---|
| Text.StartsWith | teardown.py:42 | `str.startswith`: the prefix is an initial stretch of the string |
| Text.Less | provision.py:111 | Python's string `<`: lexicographic by code point, a proper prefix first; its properties are the four lemmas below |
| Text.LessIrreflexive | provision.py:111 | no string is below itself |
| Text.LessAsymmetric | provision.py:111 | `a < b` excludes `b < a` |
| Text.LessTransitive | provision.py:111 | the string order is transitive |
| Text.LessTotal | provision.py:111 | any two distinct strings are ordered one way or the other, so `sorted` is determined |
| Text.NatToString | provision.py:56 | the decimal text of an index is non-empty and all digits |
| Text.ParseNatToString | provision.py:56 | reading the decimal text of an index back gives the index |
| Text.NatToStringInjective | provision.py:56 | distinct indices render differently |
| Text.Join | provision.py:118 | `"\n".join(lines)`: the lines with one newline between neighbours |
| Text.Split | provision.py:118 | splitting at newlines always gives at least one piece, and no piece holds a newline |
| Text.JoinSplit | provision.py:118 | joining the pieces of a split gives back the text, for every text |
| Text.SplitJoin | provision.py:118 | splitting `"\n".join(lines)` at newlines gives back the lines when none holds a newline |
| Sorting.Insert | provision.py:111 | inserting keeps every element and adds exactly the new one (multiset) |
| Sorting.InsertionSort | provision.py:111 | `sorted` returns a permutation of its input (multiset equality) |
| Sorting.InsertSorted | provision.py:111 | inserting into an ascending list keeps it ascending |
| Sorting.InsertionSortSorted | provision.py:111 | `sorted` returns an ascending list |
| Sorting.SortDistinct | teardown.py:49 | sorting a list without repeats gives a strictly ascending list of the same length and elements |
| Sorting.DistinctIffSingleOccurrences | teardown.py:49 | a list has no repeats iff no element occurs twice in its multiset |
| Sorting.StrictlySortedUnique | teardown.py:49 | two strictly ascending lists with the same elements are equal, so the sorted order does not depend on how the ledger lists its names |
| Sorting.StrictlySortedDistinct | teardown.py:49 | a strictly ascending list has no repeats |
| Sorting.StrictlySortedSuffix | teardown.py:49 | a suffix of a strictly ascending list is strictly ascending |
| Sorting.Least | provision.py:111 | a non-empty finite set of strings has a least element, which belongs to it |
| Sorting.SortedSet | provision.py:111 | the ascending listing of a set holds exactly its elements, once each |
| Ledger.PrefixNames | teardown.py:42 | the ledger names that start with `ftl2-scale`, the set all three scripts act on |
| Ledger.Matching | teardown.py:42 | the comprehension keeps exactly the listed names that start with the prefix, and keeps a repeat-free list repeat-free |
| Ledger.MatchingStrictlySorted | provision.py:111-112 | filtering a strictly ascending listing keeps it strictly ascending |
| Ledger.DistinctCardinality | provision.py:101 | a repeat-free list has as many entries as distinct elements |
| Ledger.CountMatching | provision.py:101 | counting the prefixed names of a full listing of the ledger gives the number of prefixed ledger entries |
| Ledger.StateStore.constructor | provision.py:38-51 | the store opens on the given ledger |
| Ledger.StateStore.Has | provision.py:58 | true exactly when the name is in the ledger |
| Ledger.StateStore.Get | provision.py:59 | the stored record, or not-found for an absent name |
| Ledger.StateStore.Add | provision.py:77-82 | adds the record for an absent name, refuses a present one, and changes nothing else |
| Ledger.StateStore.Remove | teardown.py:58 | removes a present name and nothing else, and refuses an absent one |
| Ledger.StateStore.Resources | provision.py:101 | lists every ledger name exactly once |
| Inventory.InventoryFile.constructor | provision.py:118 | the file starts absent or with the given text |
| Inventory.InventoryFile.Exists | teardown.py:65 | true exactly when the file is present |
| Inventory.InventoryFile.WriteText | provision.py:118 | the file then holds exactly the given text |
| Inventory.InventoryFile.Unlink | teardown.py:66 | the file is then absent |
| Inventory.HostLine | provision.py:115 | the host line `name ansible_host=ip ansible_user=root` |
| Inventory.HostLines | provision.py:111-115 | one host line per listed name, in listing order, with the record's first address |
| Inventory.InventoryLines | provision.py:110-116 | the header, the host lines of `Order`, and an empty line; `InventoryShape` states its shape |
| Inventory.InventoryText | provision.py:118 | the inventory lines joined with newlines, the text written to the file |
| Inventory.Order | provision.py:111-112 | the prefixed ledger names in strictly ascending order, each once; all have an address when the ledger is addressed |
| Inventory.InventoryShape | provision.py:110-119 | the inventory is the `[scale]` header, then one `name ansible_host=ip ansible_user=root` line per prefixed name in ascending order, then an empty line; lines less two is the number of prefixed names |
| Inventory.InventoryReadsBack | provision.py:116-118 | the written text read back line by line gives the same lines, one per prefixed node plus two |
| Inventory.HostLineNoNewline | provision.py:115 | a host line has no newline when the name and address have none |
| Inventory.MatchingSnoc | provision.py:111-112 | filtering one more listed name appends it exactly when it has the prefix |
| Inventory.HostLinesSnoc | provision.py:113-115 | one more addressed name appends exactly its host line |
| Inventory.ListingComplete | provision.py:111-114 | the prefixed names of a sorted full listing are `Order`, and every prefixed record has an address when all listed ones do |
| Inventory.CollectHostLines | provision.py:111-115 | the host lines of the prefixed listed names in listing order, or the first prefixed name whose record has no address (every prefixed name before it has one) |
| Inventory.WriteInventory | provision.py:108-119 | with every prefixed record addressed, writes the inventory text and reports the number of prefixed names; otherwise raises on a prefixed name without an address and writes nothing |
| Provision.Reconcile | provision.py:55-91 | the provisioning loop from index `i`: passes over tracked nodes, stops on a tracked node without address, asks the provider for untracked ones, stops on a failed create, skips a skipped one, adds a created record and stops if it has no address; the lemmas below state what a run does |
| Provision.NewRecord | provision.py:77-82 | the record `state.add` stores: provider `linode`, the reply's id and addresses, the node name as label |
| Provision.NodeName | provision.py:56 | every node name starts with the prefix |
| Provision.NodeNameInjective | provision.py:56 | distinct indices name distinct nodes |
| Provision.TargetsSplit | provision.py:55-56 | the names from index `i` are node `i` plus the names after it, and node `i` is not among those |
| Provision.TargetsCount | provision.py:55-56 | `range(count)` names exactly `count` distinct nodes |
| Provision.ReconcileStep | provision.py:58-91 | one step of a run without error passes over an addressed tracked node, skips, or adds the created record with an address and counts it |
| Provision.FreshUnchanged | provision.py:58-75 | a passed-over or skipped index adds no node |
| Provision.FreshCreated | provision.py:77-91 | a created index adds exactly its own node |
| Provision.FreshEmpty | provision.py:55 | nothing is added past the last index |
| Provision.LedgerSucceeds | provision.py:55-92 | a run without error keeps every record it found and adds exactly the untracked target names the provider created, with the provider's id and addresses |
| Provision.CountSucceeds | provision.py:91 | a run without error counts exactly the nodes it added in `created` |
| Provision.CallsStep | provision.py:64-71 | appending one call keeps earlier calls as a prefix |
| Provision.CallsSucceeds | provision.py:58-71 | a run without error asks the provider for exactly the target names the ledger lacked |
| Provision.CoverSucceeds | provision.py:55-92 | after a run without error every target is tracked with an address, unless it was untracked and its create was skipped |
| Provision.ReconcileSucceeds | provision.py:55-92 | all four accounts above hold for every run without error |
| Provision.NoSkipFresh | provision.py:73-91 | without skipped creates, the added nodes are all targets the ledger lacked |
| Provision.NoSkipCovered | provision.py:55-92 | without skipped creates, every node `0 … count-1` is tracked with an address |
| Provision.NoSkipLedger | provision.py:55-92 | without skipped creates, the ledger gains exactly the missing targets and keeps every old record |
| Provision.CallsFromStart | provision.py:58-71 | a whole run without error calls the provider for exactly the targets the ledger lacked |
| Provision.NoSkipCount | provision.py:91 | without skipped creates, `created` is the number of targets the ledger lacked |
| Provision.ProvisionComplete | provision.py:55-92 | a whole run without error or skipped creates covers every index with an addressed node, keeps old records, adds exactly the missing targets, calls the provider for exactly those, and counts them |
| Provision.AllPresentIdle | provision.py:58-61 | once every remaining node is tracked with an address, the rest of the run calls nothing and changes nothing |
| Provision.RerunIsIdle | provision.py:55-92 | re-running a completed provisioning with the same count creates nothing, calls the provider for nothing and leaves the ledger unchanged, whatever the provider would answer |
| Provision.ReconcileFailFast | provision.py:55-92 | a run with an error stopped at one index below `count`; before it the run went without error, and the error is the single step at that index; nothing later is looked at |
| Provision.CreateFailureKeepsEarlier | provision.py:64-82 | a failed create keeps the nodes added before it, adds nothing at or after its index, and the failing name was the last provider call |
| Provision.Growth | provision.py:55-92 | growing a fleet from `small` to `large` nodes calls the provider for exactly the indices `small … large-1` and creates `large - small` nodes |
| Provision.GrowthTargets | provision.py:55-56 | after the first `small` indices are tracked, the untracked targets below `large` are exactly those from `small` on |
| Provision.Provision | provision.py:30-105 | the ledger and provider calls are those of `Reconcile`; a loop error is returned with the inventory untouched; an SSH timeout after a real create is an error; otherwise the summary reports `created`, whether it waited, and the prefixed-node count, and the inventory text is written; a prefixed node without address is an error with the file untouched |
| Teardown.SweepFrom | teardown.py:49-59 | the teardown loop from position `k` of the sorted names: stops on a record without address, asks the provider to destroy, stops if that fails, else removes the name and goes on; the lemmas below state what a sweep does |
| Teardown.ElemsCons | teardown.py:49 | splitting off the first name of a stretch of the listing |
| Teardown.RemoveStep | teardown.py:58 | removing a name and then a set is removing both |
| Teardown.SweepRemoves | teardown.py:49-58 | a sweep without error removes exactly the names from its position on |
| Teardown.SweepCallsAll | teardown.py:49-56 | a sweep without error asks the provider to destroy exactly the names from its position on, in order |
| Teardown.SweepSucceeds | teardown.py:49-59 | a sweep without error destroys and removes exactly the listed names, in order, and nothing else |
| Teardown.SweepFails | teardown.py:49-59 | a failed sweep stopped at one position; every earlier name was destroyed and removed; the stopping name has no address or failed to destroy; nothing from it on was removed |
| Teardown.SweepPassed | teardown.py:53-58 | every name the sweep went past was destroyed |
| Teardown.TeardownRemovesAll | teardown.py:42-59 | a sweep of the sorted prefixed names without error removes exactly the prefixed names, leaves none, and destroys each once in ascending order |
| Teardown.TeardownResumes | teardown.py:42-59 | after a stop at position `j`, the remaining prefixed names in sorted order are exactly the listing from `j` on, so a re-run resumes there |
| Teardown.LeftAfterRemoval | teardown.py:42-58 | removing a first stretch of the listing leaves exactly the prefixed names of the rest |
| Teardown.SortedListing | teardown.py:42-49 | sorting the filtered listing of the ledger gives `Order`, whatever order the ledger lists its names in |
| Teardown.DestroyInOrder | teardown.py:49-59 | the destroy loop leaves the ledger, provider calls and stopping error that `SweepFrom` gives |
| Teardown.Teardown | teardown.py:23-67 | with no prefixed node, returns at once with nothing changed; otherwise ledger and calls are those of `SweepFrom`; an error is returned with the inventory kept; success reports the count and deletes the inventory |
| ScaleTest.RunAnsible | scale_test.py:128-141 | success exactly when the playbook exists and exits with status 0; a missing playbook records time zero, an existing one its measured time whatever the exit status |
| ScaleTest.RunFtl2 | scale_test.py:144-154 | success exactly when the procedure returns without raising; the elapsed time is kept either way |
| ScaleTest.Lookup | scale_test.py:171 | a found test is in the registry under that name; not found exactly when no registered test has that name |
| ScaleTest.Select | scale_test.py:171 | no name or the empty one selects the whole registry; a known name selects exactly the registry entry of that name, alone; an unknown name is an error exactly when no test has that name |
| ScaleTest.RegistryNamesDistinct | scale_test.py:102-123 | the four entries of `Tests` (the registry, in declaration order, with their descriptions and playbook paths) have distinct names, so a name selects one test |
| ScaleTest.Measure | scale_test.py:178-203 | one result records name, description and host count; an Ansible timing iff not FTL2-only and an FTL2 timing iff not Ansible-only, each from its own run; a speedup iff both ran and succeeded, equal to Ansible time over FTL2 time; it fails exactly on division by zero |
| ScaleTest.CountHosts | scale_test.py:31-37 | the number of prefixed ledger names |
| ScaleTest.Benchmark | scale_test.py:157-203 | no host is an error; an unknown test name is an error; otherwise one result per selected test in order, each as `Measure` gives it; on the first failing test, that test's error |

## Left out

- `ping_test.py` is not part of this model: it only pings the hosts.
- Loading and saving the ledger as a JSON state file is not modelled. The
  store is a map held in memory for the length of one script run.
- The provider and the FTL2 engine are parameters: create replies, destroy
  success, the SSH wait, and `ansible-playbook` and FTL2 runs. Malformed
  provider replies, such as a missing `instance` key, are not modelled.
- Registering a new host with FTL2 (`add_host`) has no state in the model.
  The `ipv4[0]` it indexes is modelled, and that index raises after the
  record has been added.
- Reading the SSH public key, argument parsing, console output, the summary
  table and the JSON export are not modelled.
- The bodies of the four FTL2 test procedures are not modelled. Their outcome
  is a parameter.
- Check mode is modelled only through its effects in the scripts: skipped
  creates, and no SSH wait when nothing was created for real. The provider
  calls themselves are parameters.
- Provision.Provision: the instance type, region and image constants are not
  passed to the provider parameter. The reply depends on the node name only.
- ScaleTest.Measure: times are taken as recorded. The rounding to three
  places (`round(elapsed, 3)`) and of the speedup to two places is not
  modelled. The division by zero is modelled on the recorded FTL2 time, so
  an FTL2 time that rounds to zero is covered as a recorded time of zero.
- ScaleTest.Benchmark: wall-clock timing is not modelled. The elapsed
  seconds are part of each run parameter.
- Ledger.StateStore.Resources: the order in which the ledger lists its
  names is left open. Every use of it is proved for any order.
- ScaleTest.RunAnsible: a failure to start `ansible-playbook` is not
  modelled. When the program is not on `PATH`, `subprocess.run`
  (scale_test.py:133-137) raises and ends the benchmark. An `AnsibleRun`
  always describes a run that started.
- ScaleTest.RunFtl2: `run_ftl2` catches only `Exception`
  (scale_test.py:151). A `BaseException` such as `asyncio.CancelledError` or
  `KeyboardInterrupt` propagates and ends the benchmark. An `Ftl2Run` only
  returns or raises an `Exception`.
- File-system errors are not modelled: `write_text` of the inventory
  (provision.py:118) and `unlink` (teardown.py:66) always succeed.
- Concurrency (`async`/`await`) is not modelled. The scripts await each call
  in turn.
