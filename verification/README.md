# Test splitting for parallel runs, in Dafny

A model of the partitioning logic of robo-paracept's `src/SplitTestsByGroups.php`.
Robo-paracept splits a Codeception test suite into N group files, one per
parallel job. The model covers four partitioners.

- **Dependency-aware even split** (`SplitTestsByGroupsTask`). It works in three steps.
  - Each declared dependency is rewritten to the full name of the test it
    refers to (`TestsSplitter::resolveDependenciesToFullNames`).
  - The tests are put into an order where every dependency comes first. This
    is a depth-first resolution (`TestsSplitter::resolveDependencies`) that
    keeps a `resolved` list and an `unresolved` path, and it fails on a
    circular dependency.
  - The ordered list is cut into contiguous groups of about
    `floor(n / numGroups)` tests. A new group is opened only on a test that
    has no dependencies.
- **Historical-time split** (`SplitTestsFilesByTimeTask`).
  - A file's cost is the sum of the time-report entries whose key contains
    its name.
  - Files are taken in non-increasing cost order. Each joins the group with
    the smallest running sum (`getMinGroup`), ties going to the lowest index.
- **Failed-tests split** (`SplitTestsFilesByFailedTask`). The failed-test log
  is trimmed of newlines at both ends and split into lines. The lines are then
  dealt round-robin.
- **Files split** (`SplitTestFilesByGroupsTask`). The discovered files are
  dealt round-robin.

Modules, one file each:

| file | module | contents |
|---|---|---|
| `results.dfy` | `Results` | `Result` and `Option` |
| `seqs.dfy` | `Seqs` | `NoDup`, `Concat`, `RemoveAll`, `IndexOf` and facts about them |
| `strings.dfy` | `Strings` | the PHP string built-ins used: `strpos`, `strrpos`, `trim`, `str_replace('::', ':')`, `explode`, `implode` |
| `arith.dfy` | `Arith` | uniqueness of quotient and remainder |
| `test_inventory.dfy` | `TestInventory` | the test list with declared dependencies, and the two errors |
| `dependency_names.dfy` | `DependencyNames` | canonicalisation of dependency names |
| `resolver.dfy` | `Resolver` | dependency resolution, and the proof that it succeeds exactly on acyclic graphs |
| `balanced_split.dfy` | `BalancedSplit` | the grouping pass and the whole dependency-aware task |
| `time_split.dfy` | `TimeSplit` | costs, the descending sort, `getMinGroup` and the greedy placement |
| `round_robin.dfy` | `RoundRobin` | the round-robin deal, the failed-log parsing, and both round-robin tasks |

Inputs that the program obtains through I/O or a framework become parameters:

- **Test inventory.** Test names in loader order, each with its declared
  dependency strings (`Inventory`).
- **Time report.** The decoded time report as a sequence of key/time entries
  (`Entry`). `None` stands for a missing report file.
- **Failed-test log.** The log's text. `None` stands for a missing file.
- **Discovered files.** The relative path names, in discovery order.

Group numbering: the source's group `g + 1` is the model's `gs[g]`. The
dependency-aware split and the round-robin splits produce only
the groups that received a test. The time split produces all `numGroups`
groups.

## Model

| member | source | states |
|---|---|---|
| `Results.AllOk` | src/SplitTestsByGroups.php:148-172 | collects a sequence of outcomes: all values, in order, when every outcome succeeds; otherwise the error of the first failure, failing exactly when some outcome fails |
| `Strings.Contains` | src/SplitTestsByGroups.php:166 | `strpos(...) !== false`: the needle occurs at the start or somewhere after the first character |
| `Strings.ContainsIff` | src/SplitTestsByGroups.php:166 | the scan finds the needle exactly when it occurs at some position |
| `Strings.LastIndexOf` | src/SplitTestsByGroups.php:155 | `strrpos` with a one-character needle: none exactly when the character is absent, otherwise its last position |
| `Strings.TrimLeft` | src/SplitTestsByGroups.php:156 | the result is a suffix of the input, does not start with the trimmed character, and only that character was dropped |
| `Strings.TrimRight` | src/SplitTestsByGroups.php:156 | the result is a prefix of the input, does not end with the trimmed character, and only that character was dropped |
| `Strings.Trim` | src/SplitTestsByGroups.php:156 | `trim($s, $c)`: the result is a contiguous piece of the input; everything outside it is `c`; it neither starts nor ends with `c` |
| `Strings.TrimBothEnds` | src/SplitTestsByGroups.php:156 | trimming both runs of `c` leaves a contiguous piece of the input with only `c` outside it |
| `Strings.TrimmedEnds` | src/SplitTestsByGroups.php:156 | the trimmed string is empty or neither starts nor ends with `c` |
| `Strings.CollapseDoubleColon` | src/SplitTestsByGroups.php:159 | `str_replace('::', ':')`: the result holds a ':' exactly when the input does, is never longer, and a string without `::` comes back unchanged |
| `Strings.CollapseAfterPlain` | src/SplitTestsByGroups.php:159 | the text before the first `::` (holding no ':') is copied, that `::` becomes one ':', and the rest is collapsed in turn |
| `Strings.CollapseLeading` | src/SplitTestsByGroups.php:159 | a leading `::` becomes a single ':' |
| `Strings.CollapseKeepsFirst` | src/SplitTestsByGroups.php:159 | a leading character other than ':' is copied unchanged |
| `Strings.FirstIndexOf` | src/SplitTestsByGroups.php:161 | the first position of a character, or none exactly when it is absent |
| `Strings.Explode` | src/SplitTestsByGroups.php:161 | `explode`: at least one piece; no piece holds the separator; there are two or more pieces exactly when the separator occurs |
| `Strings.Join` | src/SplitTestsByGroups.php:318 | `implode`: the text starts with the first piece; one piece gives that piece; with two or more the separator follows the first piece; with separator-free pieces the separator occurs exactly when there are two or more pieces |
| `Strings.JoinFirstTwo` | src/SplitTestsByGroups.php:161 | a join of two or more pieces starts with the first piece, the separator and the second piece, followed by the end or another separator |
| `Strings.JoinExplode` | src/SplitTestsByGroups.php:301-302 | joining the exploded pieces with the separator gives back the input |
| `Strings.ExplodeJoin` | src/SplitTestsByGroups.php:301-302 | exploding a join of separator-free pieces gives back the pieces |
| `Seqs.RemoveAll` | src/SplitTestsByGroups.php:131-133 | the `array_search`/`unset` loop: no copy of `x` is left, every other element stays, nothing new appears, and an absent `x` changes nothing |
| `Seqs.RemoveAllAppendSame` | src/SplitTestsByGroups.php:114-133 | pushing `item` on the path and later removing every copy of it gives the same path as removing without the push |
| `DependencyNames.Scope` | src/SplitTestsByGroups.php:156 | the declaring test's file part: empty for a name without ':'; otherwise, with p the last ':' of the name, a slice of the name before p with only ':' dropped on either side, neither starting nor ending with ':' |
| `DependencyNames.ScopeSlice` | src/SplitTestsByGroups.php:156 | trimming ':' from the text before position p leaves a slice of the name with only ':' around it up to p |
| `DependencyNames.Target` | src/SplitTestsByGroups.php:159-161 | `list($file, $method) = explode(':', ...)` after `::` became ':': both parts are ':'-free, and the collapsed reference starts with file, ':', method, followed by its end or another ':' |
| `DependencyNames.NeedleOfReference` | src/SplitTestsByGroups.php:159-166 | for a file name f and a method name m that hold no ':', the needle of both `f::m` and `f:m` is `f.php:m` |
| `DependencyNames.FirstMatch` | src/SplitTestsByGroups.php:165-170 | the index found is the first key that contains the needle; none is found exactly when no key contains it |
| `DependencyNames.CanonicalDependency` | src/SplitTestsByGroups.php:155-171 | a bare name becomes `scope + ":" + name`; a qualified name that resolves becomes one of the keys; only a qualified name can fail, and the error names the test and the reference with `::` turned into `:` |
| `DependencyNames.QualifiedLookup` | src/SplitTestsByGroups.php:164-171 | a qualified name resolves exactly when some key contains `<file>.php:<method>`, and then to the first such key in key order |
| `DependencyNames.CanonicalDependencies` | src/SplitTestsByGroups.php:148-172 | one test's list: same length, each entry is its own canonical form; it fails exactly when some entry fails, with that entry's error |
| `DependencyNames.FirstFailingDependency` | src/SplitTestsByGroups.php:148-172 | a failing list reports the error of its first unresolvable entry, all entries before it resolving |
| `DependencyNames.ListResults` | src/SplitTestsByGroups.php:147-172 | one outcome per test, in key order, each that test's canonical list |
| `DependencyNames.CollectFrom` | src/SplitTestsByGroups.php:147-174 | the outer loop over the remaining tests: on success its keys are exactly the remaining test names |
| `DependencyNames.CollectFromOk` | src/SplitTestsByGroups.php:147-174 | on success each remaining test maps to its own list, provided the names are distinct |
| `DependencyNames.CollectFromErr` | src/SplitTestsByGroups.php:147-174 | the outer loop fails exactly when some remaining test's list fails |
| `DependencyNames.CollectFromFirstErr` | src/SplitTestsByGroups.php:147-174 | a failing outer loop reports the error of the first failing list, all lists before it succeeding |
| `DependencyNames.Canonicalize` | src/SplitTestsByGroups.php:145-175 | same tests in the same order, every list of the same length, each entry its canonical form; it fails exactly when some dependency cannot be resolved, always with an unresolved-dependency error |
| `DependencyNames.CanonicalizeFirstError` | src/SplitTestsByGroups.php:147-172 | the error reported is that of the first unresolvable dependency, in key order and then list order |
| `DependencyNames.CollectFails` | src/SplitTestsByGroups.php:147-174 | the loop over all tests fails exactly when some single dependency fails |
| `DependencyNames.CanonicalizeOk` | src/SplitTestsByGroups.php:147-174 | a successful loop gives a valid inventory over the same names, each list replaced entry by entry with its canonical form |
| `DependencyNames.FirstFailingList` | src/SplitTestsByGroups.php:147-174 | a failing loop's error is the first failing test's list error |
| `DependencyNames.CanonicalizeFails` | src/SplitTestsByGroups.php:147-172 | some test's list fails exactly when some single dependency fails |
| `DependencyNames.DependencyFailsList` | src/SplitTestsByGroups.php:148-172 | one unresolvable entry makes its test's whole list fail |
| `DependencyNames.ListFailsAtDependency` | src/SplitTestsByGroups.php:148-172 | a failing list contains an unresolvable entry |
| `DependencyNames.SubstringLookup` | src/SplitTestsByGroups.php:165-168 | `A::t` resolves to `BA.php:tx` listed before `A.php:t`, because the lookup is a substring test and the first match wins |
| `TestInventory.NoDeps` | src/SplitTestsByGroups.php:436 | a test with no entry or an empty list has no dependencies |
| `Resolver.DepsOf` | src/SplitTestsByGroups.php:116 | `$items[$item]`: every entry is a declared dependency of some test, and a name that is not a key has none |
| `Resolver.Settle` | src/SplitTestsByGroups.php:125-128 | appending `item` unless resolved: the old list is a prefix, `item` is resolved, nothing else is added, and no-duplicates and dependencies-first are kept |
| `Resolver.Resolve` | src/SplitTestsByGroups.php:114-136 | every error is a circular dependency. On success: the path comes back with every copy of `item` removed; the input resolved list is a prefix of the output; `item` is resolved; no name is resolved twice; dependencies stay before dependents; names still on the path are not resolved; every newly resolved name is `item` or a declared dependency. A self-dependency fails |
| `Resolver.ResolveDeps` | src/SplitTestsByGroups.php:116-124 | on success the path is unchanged, resolved only grows, and every dependency is resolved. A dependency that is unresolved but on the path fails with `Circular dependency: item -> dep`. Every newly resolved name is in the list or a declared dependency |
| `Resolver.ResolveEach` | src/SplitTestsByGroups.php:412-419 | the driver loop: every key is resolved, no name twice, dependencies first, and the path ends empty; every newly resolved name is a key or a declared dependency |
| `Resolver.ResolveAll` | src/SplitTestsByGroups.php:407-419 | the ordered list holds every test once, with dependencies first, and nothing but test names and declared dependencies; every error is a circular dependency |
| `Resolver.DependenciesPrecede` | src/SplitTestsByGroups.php:116-129 | in a successful resolution each dependency of a test sits at a smaller index than the test |
| `Resolver.OrderedAt` | src/SplitTestsByGroups.php:116-129 | in a dependency-ordered list a dependency's first position is before its dependent's |
| `Resolver.CycleDescends` | src/SplitTestsByGroups.php:116-129 | when every step along a walk moves to an earlier position of the list, k steps move at least k positions earlier |
| `Resolver.CycleStepsDescend` | src/SplitTestsByGroups.php:116-129 | in a dependency-ordered list every step along a cycle, the closing step included, moves to an earlier position |
| `Resolver.OrderedHasNoCycle` | src/SplitTestsByGroups.php:116-129 | no dependency-ordered list contains a whole cycle |
| `Resolver.CycleFails` | src/SplitTestsByGroups.php:118-122 | when every test with dependencies is a key, any dependency cycle makes the resolution fail with a circular-dependency error |
| `Resolver.ResolveSucceeds` | src/SplitTestsByGroups.php:114-136 | given a dependency-first order in which every name on the path comes no earlier than `item`, resolving `item` succeeds |
| `Resolver.ResolveDepsSucceed` | src/SplitTestsByGroups.php:116-124 | under the same order, resolving a test's dependencies succeeds |
| `Resolver.ResolveEachSucceeds` | src/SplitTestsByGroups.php:412-419 | when a dependency-first order exists, the driver loop succeeds |
| `Resolver.WalkExtend` | src/SplitTestsByGroups.php:117-119 | pushing a dependency of the path's last name extends the walk along dependency edges |
| `Resolver.ClosedWalk` | src/SplitTestsByGroups.php:117-122 | a walk whose last name depends on one of its names closes into a cycle from that name on |
| `Resolver.ResolveFailsOnCycle` | src/SplitTestsByGroups.php:114-136 | when the path is covered by a walk ending at `item`, a failing resolution of `item` exhibits a cycle |
| `Resolver.ResolveDepsFailsOnCycle` | src/SplitTestsByGroups.php:116-124 | the same for the loop over a test's dependencies: `Circular dependency` is raised only when a dependency on the path closes a cycle |
| `Resolver.ResolveEachFailsOnCycle` | src/SplitTestsByGroups.php:412-419 | a failing driver loop exhibits a cycle |
| `Resolver.ResolveAllFailsOnCycle` | src/SplitTestsByGroups.php:407-419 | the resolver fails only when the dependency graph has a cycle |
| `Resolver.ResolveAllOkIffAcyclic` | src/SplitTestsByGroups.php:407-419 | when every test with dependencies is resolved, resolution succeeds exactly when the dependency graph has no cycle |
| `Resolver.ResolveAllOkIffOrderExists` | src/SplitTestsByGroups.php:407-419 | under the same condition, resolution succeeds exactly when some order puts every dependency first |
| `BalancedSplit.Place` | src/SplitTestsByGroups.php:433-439 | one loop iteration either appends the test to the current group or opens a new group holding just the test; a group after the first is opened only for a test without dependencies while fewer than `numGroups` groups exist |
| `BalancedSplit.PlaceKeepsGrouped` | src/SplitTestsByGroups.php:433-439 | one iteration keeps the grouping rules and appends the test to the concatenation |
| `BalancedSplit.OpenKeepsGrouped` | src/SplitTestsByGroups.php:435-437 | opening a group on a dependency-free test, once the current group holds the target and is not the last, keeps the rules |
| `BalancedSplit.ExtendKeepsGrouped` | src/SplitTestsByGroups.php:435-438 | appending to the current group when the advance condition fails keeps the rules |
| `BalancedSplit.Fill` | src/SplitTestsByGroups.php:433-439 | the pass keeps the rules, the concatenation of groups is the input order, and some group exists once a test was placed |
| `BalancedSplit.Target` | src/SplitTestsByGroups.php:427 | `floor(n / numGroups)`: the largest size t with `numGroups · t <= n` |
| `BalancedSplit.Split` | src/SplitTestsByGroups.php:427-440 | the groups, read in order, are the ordered list. At most `numGroups` groups, none empty. Every group after the first starts with a test without dependencies, and every group but the last holds at least the target. A group grows past the target, short of the last group, only on tests with dependencies. There are groups exactly when there are tests |
| `BalancedSplit.DetectDependencies` | src/SplitTestsByGroups.php:348-393 | the loading loop's `$testsHaveAtLeastOneDependency` ends true exactly when some test declares a dependency |
| `BalancedSplit.OrderTests` | src/SplitTestsByGroups.php:395-424 | with no dependencies the order is the loader order. Otherwise every test appears once, with dependencies first, and the dependency lists keep their shape; the list holds only test names and the full names of declared dependencies. It fails with an unresolved dependency exactly when canonicalisation fails. Once canonicalisation succeeds, it succeeds exactly when the canonical graph has no cycle |
| `BalancedSplit.CanonicalOrder` | src/SplitTestsByGroups.php:407-424 | canonicalisation keeps the test names and the length of every list; resolution then succeeds exactly when the graph has no cycle, and lists only test names and full names of declared dependencies |
| `BalancedSplit.CanonicalNamesDependency` | src/SplitTestsByGroups.php:147-172 | every name in a canonical list is the canonical form of some declared dependency |
| `BalancedSplit.LoaderOrderIsOrdered` | src/SplitTestsByGroups.php:407-424 | when no test declares a dependency, the loader order already puts dependencies first |
| `BalancedSplit.GroupedDepsAgree` | src/SplitTestsByGroups.php:435-436 | the grouping rules depend only on which tests have an empty list, so they agree for canonical and declared lists |
| `BalancedSplit.SplitUnderDeclaredDeps` | src/SplitTestsByGroups.php:435-436 | a split made with the canonical lists obeys the rules stated with the declared lists |
| `BalancedSplit.SplitTestsByGroups` | src/SplitTestsByGroups.php:395-440 | without dependencies it succeeds and the groups read back the loader order. On success every test appears exactly once, every other name is the full name of a declared dependency, and the grouping rules hold. It fails exactly when some test has dependencies and either canonicalisation fails or the canonical graph has a cycle |
| `BalancedSplit.ChainStaysTogether` | src/SplitTestsByGroups.php:433-439 | A, B (depending on A), C, D into 2 groups gives [A, B] and [C, D] |
| `TimeSplit.Cost` | src/SplitTestsByGroups.php:226-231 | the running total `$timesCat`: after the last entry it is the total before it plus that entry's time when its key contains the file |
| `TimeSplit.CostFacts` | src/SplitTestsByGroups.php:226-232 | a one-entry report costs the entry's time when its key contains the file and 0 otherwise; every matching entry adds its time, and a file no key mentions costs 0 |
| `TimeSplit.CostAppend` | src/SplitTestsByGroups.php:227-231 | a cost over two parts of the report is the sum of the parts' costs |
| `TimeSplit.FilesWithTime` | src/SplitTestsByGroups.php:224-233 | each discovered file, in order, paired with its cost |
| `TimeSplit.Insert` | src/SplitTestsByGroups.php:234 | inserting into a sorted list adds exactly the new entry |
| `TimeSplit.InsertKeepsOrder` | src/SplitTestsByGroups.php:234 | inserting into a non-increasing list keeps it non-increasing |
| `TimeSplit.SortByCost` | src/SplitTestsByGroups.php:234 | `arsort`: a permutation of the input with non-increasing costs |
| `TimeSplit.MinGroupFrom` | src/SplitTestsByGroups.php:258-265 | the scan's index has a sum no larger than any group's, and every earlier group's sum is strictly larger |
| `TimeSplit.MinGroup` | src/SplitTestsByGroups.php:256-267 | `getMinGroup`: the lowest index whose sum is minimal |
| `TimeSplit.AllTestsAdd` | src/SplitTestsByGroups.php:244 | adding a file to one group adds exactly that file to the union of groups |
| `TimeSplit.Place` | src/SplitTestsByGroups.php:242-246 | one iteration: the file joins the `getMinGroup` group, whose sum grows by exactly the file's cost; every other group is unchanged |
| `TimeSplit.PlaceKeepsSums` | src/SplitTestsByGroups.php:242-246 | if each group's sum is the cost of its files before the iteration, so it is after |
| `TimeSplit.PlaceKeepsBalanced` | src/SplitTestsByGroups.php:242-246 | adding a file of cost at most `bound` to a smallest group keeps all sums within `bound` of each other |
| `TimeSplit.PlaceAll` | src/SplitTestsByGroups.php:242-246 | the loop keeps the number of groups and adds exactly the placed files |
| `TimeSplit.PlaceAllKeepsSums` | src/SplitTestsByGroups.php:242-246 | after the loop each group's sum is still the cost of its files |
| `TimeSplit.PlaceAllKeepsBalanced` | src/SplitTestsByGroups.php:242-246 | when no file costs more than `bound`, the sums stay within `bound` of each other |
| `TimeSplit.EmptyGroups` | src/SplitTestsByGroups.php:235-240 | exactly `numGroups` groups, each empty with sum 0 |
| `TimeSplit.EmptyGroupsFacts` | src/SplitTestsByGroups.php:235-240 | the empty groups hold no file, their sums are the cost of their files, and they are balanced |
| `TimeSplit.SplitByTime` | src/SplitTestsByGroups.php:224-246 | exactly `numGroups` groups; every discovered file lands in exactly one of them; each group's sum is the cost of its files |
| `TimeSplit.SplitByTimeBalanced` | src/SplitTestsByGroups.php:234-246 | when no file costs more than `bound`, no group's sum exceeds another's by more than `bound` |
| `TimeSplit.RunByTime` | src/SplitTestsByGroups.php:200-246 | a missing time report is the only error; otherwise the result is the time split |
| `TimeSplit.SortFiles` | src/SplitTestsByGroups.php:234 | sorting keeps the multiset of file names |
| `TimeSplit.CostedFiles` | src/SplitTestsByGroups.php:224-233 | the costed list names the discovered files in discovery order |
| `TimeSplit.CostedCosts` | src/SplitTestsByGroups.php:224-234 | after sorting every entry still carries its own file's cost |
| `TimeSplit.SortedFiles` | src/SplitTestsByGroups.php:224-234 | the sorted costed list holds exactly the discovered files, each with its cost |
| `RoundRobin.AddTo` | src/SplitTestsByGroups.php:310 | `$groups[$g + 1][] = $x`: group g gains `x` at its end (a new group when g is the next index); every other group is unchanged |
| `RoundRobin.Distribute` | src/SplitTestsByGroups.php:306-312 | the deal: there are `min(n, numGroups)` groups, and group g holds the items at positions g, g + numGroups, g + 2·numGroups, … in input order |
| `RoundRobin.ColumnAppend` | src/SplitTestsByGroups.php:309-311 | a new item at position n extends exactly the group whose positions are congruent to n |
| `RoundRobin.DistributeStep` | src/SplitTestsByGroups.php:309-311 | one iteration, adding to group `n % numGroups`, keeps the deal round-robin |
| `RoundRobin.DistributeLast` | src/SplitTestsByGroups.php:306-312 | dealing the last item to group `(n - 1) % numGroups` completes the round-robin deal of all n items |
| `RoundRobin.ColumnLength` | src/SplitTestsByGroups.php:306-312 | group g receives `floor(n / numGroups)` items, plus one when g is below `n % numGroups` |
| `RoundRobin.ColumnIndex` | src/SplitTestsByGroups.php:309-311 | entry j of group g is the item at position g + numGroups·j |
| `RoundRobin.PositionOfItem` | src/SplitTestsByGroups.php:309-311 | the item at position k is entry `k / numGroups` of group `(k % numGroups) + 1` |
| `RoundRobin.AddToMultiset` | src/SplitTestsByGroups.php:309-311 | adding an item to one group adds exactly that item to the union of groups |
| `RoundRobin.DistributeKeepsItems` | src/SplitTestsByGroups.php:306-312 | the groups together are a permutation of the input |
| `RoundRobin.FailedTests` | src/SplitTestsByGroups.php:300-302 | the log's lines: at least one, none holding a newline, and joined with newlines they give the log trimmed of newlines at both ends |
| `RoundRobin.SplitFailed` | src/SplitTestsByGroups.php:294-312 | a missing log is the only error; otherwise its lines are dealt round-robin, each line exactly once |
| `RoundRobin.SplitFiles` | src/SplitTestsByGroups.php:484-489 | the discovered files are dealt round-robin, each exactly once |
| `RoundRobin.ThreeFilesTwoGroups` | src/SplitTestsByGroups.php:484-489 | files a, b, c into 2 groups gives [a, c] and [b] |

## Left out

- `src/MergeReports.php`. It merges JUnit XML and HTML reports through DOM/XPath and file I/O; this is markup plumbing, not partitioning.
- File discovery with Symfony Finder (src/SplitTestsByGroups.php:206-215, 469-478). The discovered relative path names are an input sequence.
- Codeception/PHPUnit metadata extraction (src/SplitTestsByGroups.php:339-393). This covers the test loader, data-provider unwrapping, DI preloading and reflection on private `dependencies`. Its result, names with declared dependency strings, is the input `Inventory`. The `Codeception\Test\Loader` availability check is part of it.
- Reading and writing files, `json_decode`, and the Robo tasks' log messages. Writing group g's file (`implode("\n", ...)`) is not modelled; `Strings.Join` is that implode.
- The missing-file exceptions are modelled only as an error value. The exception and its message text are not modelled.
- Floating-point times. Costs are natural numbers, say milliseconds, so `TimeSplit` has no rounding.
- `arsort`'s order among equal costs, which differs between PHP versions. The model uses a stable descending insertion sort. `TimeSplit.PlaceAllKeepsBalanced` holds for any placement order; `TimeSplit.SplitByTimeBalanced` is stated for the model's own sort.
- `TimeSplit.SplitByTime`: the source collects costs in `$filesWithTime[$fileName]`, so a repeated file name would be counted once. Finder never yields the same relative path twice, so the model keeps every entry of its input.
- `numGroups >= 1` is a precondition of every split. The source never validates it, and divides and reduces modulo by it (src/SplitTestsByGroups.php:310, 427).
- Bare-name dependencies are never checked to exist (src/SplitTestsByGroups.php:155-157). The model follows this. A name that is not a key has no dependencies when resolved, and is still added to the ordered list (`Resolver.DepsOf`).
- PHP's loose `in_array`/`array_search` comparison. Names are compared as exact strings. Test names are full names such as `path.php:method`, or `.feature` paths, and canonical dependency names hold a ':', so none is a numeric string and loose and strict comparison agree.
- The 4/3 makespan bound of longest-first greedy scheduling is not proved. The balance bound proved is the largest single cost.
- Two behaviours of the program that the model keeps as they are:
  - An empty or newline-only failed-test log yields one empty line, which is written to group 1; blank lines inside the log are kept (src/SplitTestsByGroups.php:300-302).
  - The dependency-aware split and the round-robin splits write only the groups that received a test (src/SplitTestsByGroups.php:315-319, 443-447, 492-496).
