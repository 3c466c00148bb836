# Kiali UI: traffic-routing wizard and service details, modelled in Dafny

This project models the logic behind three parts of the Kiali console.

- **Weighted routing editor** (`WeightedRouting.tsx`). An ordered array of rows `{name, weight, locked, maxWeight}`, updated in place:
  - `resetState` spreads 100 over the workloads.
  - `onWeight` sets one workload's weight, walks the other unlocked rows in order, cuts them down to the remaining budget, and puts any shortfall on the last of them.
  - `onLock` toggles a lock and recomputes the bound of every unlocked row.
  - `checkTotalWeight` tests for a total of 100.

  The class `WeightedRouting.WeightedRouting` keeps the rows in an `array` and runs the same loops. Each method is proved against a function on sequences: `ResetWeights`, `AfterWeight` or `AfterLock`. The lemmas about those functions state what the editor promises: balance, what is never touched, and idempotence.
- **Istio wizard** (`IstioWizard.tsx`).
  - The class `IstioWizard.IstioWizard` holds the wizard's state fields and its event handlers.
  - `buildHTTPMatchRequest` is the line parser. Its JavaScript string primitives are modelled exactly in `JsString`: `indexOf` returns -1 on a miss, `substring` clamps and swaps its ends, and `trim` uses the ECMAScript white-space set.
  - `compareWorkloads` compares the previous and current workload lists.
  - `createIstioTraffic` builds the DestinationRule and VirtualService records.
- **Service details page** (`ServiceDetailsPage.tsx`):
  - `servicePageURL`;
  - `parseSearch`, as written and as evidently intended;
  - `searchValidation`;
  - `addFormatValidation`, which appends format checks in place to the nested validation maps and skips duplicates.

The modules follow the program:

| module | contents |
|---|---|
| `Wrappers` | `Option` |
| `JsString` | the string primitives |
| `ServiceInfo` | `WorkloadOverview` |
| `IstioObjects` | the Istio records and the validation records |
| `WeightedRouting`, `IstioWizard`, `ServiceDetails` | one module per core file |

Two inputs come from code outside this model and are taken as parameters:
- the server's version label name (`serverConfig.istioLabels.versionLabelName`);
- the destination-rule format validator (`DestinationRuleValidator.formatValidation`), a function returning an optional check.

## Model

| member | source | states |
|---|---|---|
| JsString.Clamp | src/components/IstioWizards/IstioWizard.tsx:111 | An index argument of `substring` is clamped into `[0, length]` |
| JsString.IndexOf | src/components/IstioWizards/IstioWizard.tsx:109-113 | `indexOf(c, from)` is -1 or a position at or after the clamped start that holds `c` |
| JsString.IndexOfFirst | src/components/IstioWizards/IstioWizard.tsx:109-113 | No occurrence of `c` lies between the clamped start and the index returned (or the end, on a miss), so the result is the first occurrence |
| JsString.IndexOfIs | src/components/IstioWizards/IstioWizard.tsx:126-127 | The first occurrence at or after the start is what `indexOf` returns |
| JsString.IndexOfMiss | src/components/IstioWizards/IstioWizard.tsx:126-127 | With no occurrence after the start, `indexOf` returns -1 |
| JsString.Substring | src/components/IstioWizards/IstioWizard.tsx:111-115 | `substring(start, end)` with both ends within the string is the slice between them, taken in either order. A negative end gives the prefix up to `start`, a negative start the prefix up to `end`, and an end past the length the suffix from `start`. The result is never longer than the string |
| JsString.SubstringFrom | src/components/IstioWizards/IstioWizard.tsx:115 | `substring(start)` is the suffix from `start` |
| JsString.Trimmed | src/components/IstioWizards/IstioWizard.tsx:111-115 | `trim` returns a slice of the string that neither starts nor ends with white space, with only white space removed on either side |
| JsString.TrimUnchanged | src/components/IstioWizards/IstioWizard.tsx:128-130 | A string with no white space at either end is its own `trim` |
| JsString.StartsWith | src/components/IstioWizards/IstioWizard.tsx:106 | `startsWith(prefix)`: the string is at least as long as the prefix and begins with it (a predicate, defined by that condition) |
| JsString.Trim | src/components/IstioWizards/IstioWizard.tsx:111-115 | The result of `trim` has no white space at either end and is never longer than the string |
| JsString.Split | src/pages/ServiceDetails/ServiceDetailsPage.tsx:79-82 | `split` on a one-character separator always yields at least one part |
| JsString.ReplaceFirst | src/pages/ServiceDetails/ServiceDetailsPage.tsx:81 | `replace('?', '')` removes the first `?`: the result is the string with position i cut out, where i holds `?` and no earlier position does. A string without `?` comes back unchanged |
| JsString.At | src/pages/ServiceDetails/ServiceDetailsPage.tsx:83-84 | Indexing an array below its length gives the element at that index; past the end it is `undefined` |
| WeightedRouting.WeightedRouting.constructor | src/components/IstioWizards/WeightedRouting.tsx:39-44 | The editor starts with no rows |
| WeightedRouting.ReduceWeights | src/components/IstioWizards/WeightedRouting.tsx:145-148 | `map(w => w.weight).reduce((a, b) => a + b, acc)` equals `acc` plus the total weight of the rows |
| WeightedRouting.CheckTotalWeight | src/components/IstioWizards/WeightedRouting.tsx:145-148 | `checkTotalWeight` holds if and only if the weights of the rows add up to 100 |
| WeightedRouting.JsRound | src/components/IstioWizards/WeightedRouting.tsx:54 | `Math.round(p / q)` is the integer r with `r - 1/2 <= p/q < r + 1/2` |
| WeightedRouting.ResetShareValue | src/components/IstioWizards/WeightedRouting.tsx:54 | For 0 < n < 100 the share `Math.round(100 / n)` is `100 div n`, plus one exactly when twice the remainder reaches n |
| WeightedRouting.Names | src/components/IstioWizards/WeightedRouting.tsx:56-57 | The reset takes the workload names in order |
| WeightedRouting.ResetWeights | src/components/IstioWizards/WeightedRouting.tsx:54-64 | A reset yields one row per workload; the contents of each row are stated by `ResetRow` |
| WeightedRouting.ResetRow | src/components/IstioWizards/WeightedRouting.tsx:54-64 | Row k of a reset carries the k-th name and is unlocked with bound 100. Its weight is `round(100/n)` when n < 100 and 0 otherwise, plus `100 % n` on the last row only |
| WeightedRouting.ResetTotal | src/components/IstioWizards/WeightedRouting.tsx:54-64 | A reset of n > 0 rows totals n times the share plus the remainder |
| WeightedRouting.ResetBalancedIff | src/components/IstioWizards/WeightedRouting.tsx:54-64 | `checkTotalWeight` holds after a reset if and only if 0 < n < 100 and twice `100 % n` is below n |
| WeightedRouting.ResetSixWorkloads | src/components/IstioWizards/WeightedRouting.tsx:54-64 | Six workloads get 17 each and 21 on the last, a total of 106 |
| WeightedRouting.EvenWeightsBalanced | src/components/IstioWizards/WeightedRouting.tsx:54-64 | The corrected reset, with floor in place of round, always totals 100 for 0 < n < 100 |
| WeightedRouting.WeightedRouting.ResetState | src/components/IstioWizards/WeightedRouting.tsx:50-71 | With no workloads nothing changes and no change is reported. Otherwise the rows become the reset rows and the change is reported with the `checkTotalWeight` result and `reset = true` |
| WeightedRouting.LastFree | src/components/IstioWizards/WeightedRouting.tsx:106-109 | The last unlocked non-target row, or -1: every later row is locked or the target |
| WeightedRouting.AfterWeight | src/components/IstioWizards/WeightedRouting.tsx:86-95 | `onWeight` keeps the length, order, names, lock flags and bounds. Every row named after the target gets the new weight, and every locked non-target row is untouched |
| WeightedRouting.WalkClips | src/components/IstioWizards/WeightedRouting.tsx:97-104 | In the walk a free row never grows, the running sum stays within the budget, and a row that was cut fills the budget exactly |
| WeightedRouting.RunAtMostBudget | src/components/IstioWizards/WeightedRouting.tsx:97-104 | Once the walk has passed a free row, its running sum never exceeds the budget |
| WeightedRouting.FreeSumAfterWeight | src/components/IstioWizards/WeightedRouting.tsx:97-109 | When a free row exists, the free rows sum to exactly the budget afterwards: 100 minus the locked weights minus the new weight per target row |
| WeightedRouting.TotalAfterWeight | src/components/IstioWizards/WeightedRouting.tsx:77-109 | When a free row exists, the total afterwards is 100 minus the old weights of locked rows named after the target |
| WeightedRouting.OnWeightBalances | src/components/IstioWizards/WeightedRouting.tsx:73-117 | When a free row exists and the target is unlocked, `checkTotalWeight` holds after `onWeight` |
| WeightedRouting.OnWeightWithoutFree | src/components/IstioWizards/WeightedRouting.tsx:86-109 | Without a free row, only the target's weight changes |
| WeightedRouting.AfterWeightIdempotent | src/components/IstioWizards/WeightedRouting.tsx:73-117 | Repeating `onWeight` with the same arguments changes nothing, provided every locked target row already has the new weight |
| WeightedRouting.FreeListAt | src/components/IstioWizards/WeightedRouting.tsx:86-95 | `nodeId` lists the free rows in increasing order, with no free row skipped between entries |
| WeightedRouting.WeightedRouting.OnWeight | src/components/IstioWizards/WeightedRouting.tsx:73-117 | The rows become `AfterWeight` of the old rows, and the change is reported with the `checkTotalWeight` result and `reset = false` |
| WeightedRouting.WeightedRouting.LockedBudget | src/components/IstioWizards/WeightedRouting.tsx:77-84 | The first loop yields 100 minus the sum of the locked weights |
| WeightedRouting.WeightedRouting.SetWeight | src/components/IstioWizards/WeightedRouting.tsx:86-95 | The target rows take the new weight, and the budget loses it once per target row. `nodeId` is the list of free rows |
| WeightedRouting.WeightedRouting.DistributePending | src/components/IstioWizards/WeightedRouting.tsx:97-109 | The walk plus the last-row adjustment leave exactly `AfterWeight` of the rows before `onWeight` |
| WeightedRouting.WeightedRouting.WalkFree | src/components/IstioWizards/WeightedRouting.tsx:98-104 | After the walk, `sumWeights` is the clipped running sum and every free row holds its clipped weight |
| WeightedRouting.WeightedRouting.ClipRow | src/components/IstioWizards/WeightedRouting.tsx:100-103 | One row is lowered to `maxWeight - sumWeights` when it would overflow the budget, and kept otherwise. Nothing else changes |
| WeightedRouting.WeightedRouting.AdjustLast | src/components/IstioWizards/WeightedRouting.tsx:106-109 | A positive shortfall goes onto the last listed free row. Nothing else changes |
| WeightedRouting.AfterLock | src/components/IstioWizards/WeightedRouting.tsx:119-142 | `onLock` changes only the target's lock flag and keeps every weight and name. Locked rows keep their bound, and each unlocked row's bound becomes 100 minus the locked weights counted after the change |
| WeightedRouting.AfterLockKeepsTotal | src/components/IstioWizards/WeightedRouting.tsx:119-148 | `onLock` changes neither the total nor the `checkTotalWeight` verdict |
| WeightedRouting.WeightedRouting.OnLock | src/components/IstioWizards/WeightedRouting.tsx:119-143 | The rows become `AfterLock` of the old rows |
| WeightedRouting.WeightedRouting.SetLock | src/components/IstioWizards/WeightedRouting.tsx:121-132 | The first loop relocks the target rows and yields 100 minus the locked weights after relocking |
| WeightedRouting.WeightedRouting.UpdateMaxWeights | src/components/IstioWizards/WeightedRouting.tsx:133-138 | Every unlocked row's bound is set and locked rows are left alone |
| IstioWizard.IstioWizard.constructor | src/components/IstioWizards/IstioWizard.tsx:50-62 | The wizard starts hidden and valid, with no rows and no rules, TLS `DISABLE` and `ROUND_ROBIN` balancing, neither modified |
| IstioWizard.IstioWizard.ComponentDidUpdate | src/components/IstioWizards/IstioWizard.tsx:64-87 | When `show` changes or the workloads differ, the state resets: the rows and rules are cleared, TLS and balancing go back to their defaults, the modified flags are kept, and `valid` holds only for weighted routing. Otherwise nothing changes |
| IstioWizard.CompareWorkloads | src/components/IstioWizards/IstioWizard.tsx:89-99 | True if and only if the lengths agree and every previous workload occurs in the current list. It is true for identical lists |
| IstioWizard.SameWorkloadsIgnoresMultiplicity | src/components/IstioWizards/IstioWizard.tsx:89-99 | The comparison is not a multiset equality: `[a, a, b]` and `[a, b, b]` compare equal |
| IstioWizard.LinesPartition | src/components/IstioWizards/IstioWizard.tsx:105-106 | Every line is either a header line or another line, and a header group exists if and only if some line starts with `headers` |
| IstioWizard.LinesMembership | src/components/IstioWizards/IstioWizard.tsx:122-123 | The two filters keep lines of the input with and without the `headers` prefix |
| IstioWizard.HeaderEntriesPerLine | src/components/IstioWizards/IstioWizard.tsx:105-117 | One header entry per header line, in input order, each parsed from its own line |
| IstioWizard.HeaderMapKeys | src/components/IstioWizards/IstioWizard.tsx:116 | The `headers` dictionary holds exactly the names parsed from header lines |
| IstioWizard.HeaderMapLastWins | src/components/IstioWizards/IstioWizard.tsx:116 | A later header line with the same name overwrites an earlier one |
| IstioWizard.HeaderGroupPresent | src/components/IstioWizards/IstioWizard.tsx:118-120 | The grouped entry is pushed if and only if some line starts with `headers` |
| IstioWizard.FieldMatchesPerLine | src/components/IstioWizards/IstioWizard.tsx:122-136 | One entry per other line, in input order, each parsed from its own line |
| IstioWizard.MatchRequestsShape | src/components/IstioWizards/IstioWizard.tsx:101-137 | At most one grouped headers entry, first, present exactly when a header line exists, followed by exactly one field entry per other line in input order |
| IstioWizard.HTTPMatchRequests | src/components/IstioWizards/IstioWizard.tsx:101-137 | The match requests built from the match lines: the grouped headers entry, when there is one, then the field entries. Its shape is stated by `MatchRequestsShape` |
| IstioWizard.ParseHeaderLine | src/components/IstioWizards/IstioWizard.tsx:108-116 | The header name, op and value parsed from a header line each have no white space at either end |
| IstioWizard.HeaderLinePositions | src/components/IstioWizards/IstioWizard.tsx:109-113 | On `headers [h] op value` with no `]` in h and no space in op, the four `indexOf` calls find the brackets and the two spaces around op |
| IstioWizard.ParseHeaderLineFormat | src/components/IstioWizards/IstioWizard.tsx:108-116 | `headers [h] op value` yields the entry `h: {op: value}`, each part trimmed, and the value may contain spaces |
| IstioWizard.FieldLinePositions | src/components/IstioWizards/IstioWizard.tsx:126-127 | On `name op value` with no space in name or op, the two `indexOf` calls find the spaces after name and op |
| IstioWizard.ParseFieldLineFormat | src/components/IstioWizards/IstioWizard.tsx:125-135 | `name op value` yields `{name: {op: value}}`, each part trimmed, the value being everything after the second space |
| IstioWizard.ParseFieldLine | src/components/IstioWizards/IstioWizard.tsx:125-135 | A field line yields a single `{name: {op: value}}` entry whose three parts have no white space at either end |
| IstioWizard.ParseFieldLineOneSpace | src/components/IstioWizards/IstioWizard.tsx:126-130 | A malformed line `name op` with one space yields `{name: {name: "name op"}}`, because the missing second space makes `substring` swap its ends |
| IstioWizard.BuildHTTPMatchRequest | src/components/IstioWizards/IstioWizard.tsx:101-138 | The pushes and dictionary writes build exactly the grouped headers entry, if any, followed by the field entries |
| IstioWizard.CollectHeaders | src/components/IstioWizards/IstioWizard.tsx:105-117 | The loop over header lines builds the `headers` dictionary in which the last write for each name wins |
| IstioWizard.PushFieldMatches | src/components/IstioWizards/IstioWizard.tsx:122-136 | The loop appends the field entries, in order, after what is already there |
| IstioWizard.VersionOf | src/components/IstioWizards/IstioWizard.tsx:153-154 | A workload's version is the value of its version label when it carries that label, and `undefined` otherwise |
| IstioWizard.Lookup | src/components/IstioWizards/IstioWizard.tsx:186 | Reading a name present in the workload-to-version table gives its entry; a missing name gives `undefined` |
| IstioWizard.NameVersions | src/components/IstioWizards/IstioWizard.tsx:157-158 | The workload-to-version table has exactly the workload names as keys |
| IstioWizard.NameVersionsLast | src/components/IstioWizards/IstioWizard.tsx:157-158 | The table maps each workload name to the version of the last workload with that name |
| IstioWizard.NameVersionsMissing | src/components/IstioWizards/IstioWizard.tsx:157-158 | A name that no workload has is absent from the table |
| IstioWizard.IstioWizard.Subsets | src/components/IstioWizards/IstioWizard.tsx:151-163 | One subset per workload in order, named by its version and selecting exactly `{label: version}`. The table maps names to versions |
| IstioWizard.IstioWizard.WeightedRoute | src/components/IstioWizards/IstioWizard.tsx:176-193 | One destination per weighted row in order, at the service host, with the row's subset looked up by name and the row's weight |
| IstioWizard.RuleRoute | src/components/IstioWizards/IstioWizard.tsx:200-214 | A rule becomes one route with a single unweighted destination at the service host. A subset is set only for a workload rule, and a match only when the rule has match lines |
| IstioWizard.RuleToRoute | src/components/IstioWizards/IstioWizard.tsx:201-214 | The statements build exactly `RuleRoute` of the rule |
| IstioWizard.RulesToRoutes | src/components/IstioWizards/IstioWizard.tsx:200-215 | One route per rule, in order |
| IstioWizard.IstioWizard.MatchingRoutes | src/components/IstioWizards/IstioWizard.tsx:196-218 | One route per state rule, in order, built as `RuleRoute` |
| IstioWizard.IstioWizard.CreateIstioTraffic | src/components/IstioWizards/IstioWizard.tsx:140-237 | The DestinationRule is named after the service, with one subset per workload, and has a traffic policy exactly when TLS or balancing was modified, holding just those parts. The VirtualService follows the wizard type: one weighted route, one route per rule, or an empty spec |
| IstioWizard.IstioWizard.OnCreate | src/components/IstioWizards/IstioWizard.tsx:246-262 | The objects are built as `createIstioTraffic` builds them, the wizard becomes invalid, and nothing else changes |
| IstioWizard.IstioWizard.OnClose | src/components/IstioWizards/IstioWizard.tsx:239-244 | The wizard is hidden, reported closed without changes, and nothing else changes |
| IstioWizard.IstioWizard.OnTLS | src/components/IstioWizards/IstioWizard.tsx:264-269 | TLS takes the mode and is marked modified. Nothing else changes |
| IstioWizard.IstioWizard.OnLoadBalancer | src/components/IstioWizards/IstioWizard.tsx:271-276 | The balancer takes the value and is marked modified. Nothing else changes |
| IstioWizard.IstioWizard.OnWeightsChange | src/components/IstioWizards/IstioWizard.tsx:278-283 | Validity and rows are taken from the editor. Nothing else changes |
| IstioWizard.IstioWizard.OnRulesChange | src/components/IstioWizards/IstioWizard.tsx:285-290 | Validity and rules are taken from the editor. Nothing else changes |
| ServiceDetails.ServicePageURL | src/pages/ServiceDetails/ServiceDetailsPage.tsx:66-72 | The URL is the service path, followed by `?list=<type>s` exactly when a non-empty type was parsed |
| ServiceDetails.ServicePageURLQuery | src/pages/ServiceDetails/ServiceDetailsPage.tsx:66-72 | For namespace and service names without `?`, the URL has a query if and only if a non-empty type was parsed |
| ServiceDetails.SplitAt | src/pages/ServiceDetails/ServiceDetailsPage.tsx:79-82 | Splitting at the first separator gives the part before it followed by the split of the rest |
| ServiceDetails.ReplaceFirstHead | src/pages/ServiceDetails/ServiceDetailsPage.tsx:81 | Removing `?` from `?rest` gives `rest` |
| ServiceDetails.FirstParamsOf | src/pages/ServiceDetails/ServiceDetailsPage.tsx:79-82 | `?type=name` gives the parameter parts `[type, name]` |
| ServiceDetails.ParsedFirstParam | src/pages/ServiceDetails/ServiceDetailsPage.tsx:78-84 | The parsed value has a type exactly when the search is non-empty, and a name only then |
| ServiceDetails.ParseSearch | src/pages/ServiceDetails/ServiceDetailsPage.tsx:76-87 | As written, the result has neither type nor name, whatever the search |
| ServiceDetails.ParseSearchIntended | src/pages/ServiceDetails/ServiceDetailsPage.tsx:76-85 | The intended parse is empty if and only if the search is empty |
| ServiceDetails.ParseSearchIntendedRoundTrip | src/pages/ServiceDetails/ServiceDetailsPage.tsx:78-84 | The intended parse recovers the type and the name from `?type=name` |
| ServiceDetails.ParseSearchDiscards | src/pages/ServiceDetails/ServiceDetailsPage.tsx:76-87 | On `?type=name` the code as written returns nothing, though the parse it computes recovers both parts |
| ServiceDetails.SearchValidation | src/pages/ServiceDetails/ServiceDetailsPage.tsx:89-105 | A validation is found if and only if type and name are non-empty and the nested entry exists, and then it is that entry |
| ServiceDetails.SearchAsWrittenFindsNothing | src/pages/ServiceDetails/ServiceDetailsPage.tsx:76-105 | As written, no search ever selects a validation, and the page URL never carries a list query |
| ServiceDetails.SearchIntendedFinds | src/pages/ServiceDetails/ServiceDetailsPage.tsx:89-105 | With the intended parse, `?type=name` selects `validations[type][name]` exactly when it exists |
| ServiceDetails.WithFormatCheck | src/pages/ServiceDetails/ServiceDetailsPage.tsx:143-150 | One rule's turn changes the object validation if and only if the check is non-null and its message is not reported yet. It then appends the check and marks the object invalid, never removing a check and never making it valid |
| ServiceDetails.FirstThrow | src/pages/ServiceDetails/ServiceDetailsPage.tsx:139-146 | The index of the first turn that throws a TypeError, or the number of rules. A turn throws when `validations['destinationrule']` is undefined, or when the rule has a check but no validation. No rule before that index throws, and none throws at all exactly when the validations are `Registered` |
| ServiceDetails.FormatChecked | src/pages/ServiceDetails/ServiceDetailsPage.tsx:143-150 | Only the destination-rule validations change, and their names stay the same. A rule without a check needs no validation of its own, because the null test at :145 comes before `.checks` is read |
| ServiceDetails.FormatValidated | src/pages/ServiceDetails/ServiceDetailsPage.tsx:139-151 | On any input where no turn throws, including no rules and no `destinationrule` key, the loop over all rules changes only the destination-rule validations and keeps their names. Without that key it changes nothing |
| ServiceDetails.FormatCheckedNoop | src/pages/ServiceDetails/ServiceDetailsPage.tsx:144-147 | A null check, or one whose message is already reported, changes nothing |
| ServiceDetails.FormatValidatedGrows | src/pages/ServiceDetails/ServiceDetailsPage.tsx:144-150 | Every object validation afterwards extends the one before: the same checks as a prefix, and no invalid object made valid. Other object types are untouched |
| ServiceDetails.FormatValidatedReports | src/pages/ServiceDetails/ServiceDetailsPage.tsx:139-151 | Afterwards every rule's non-null check is reported on its validation |
| ServiceDetails.FormatValidatedNoop | src/pages/ServiceDetails/ServiceDetailsPage.tsx:146 | When every rule's check is already reported, nothing changes |
| ServiceDetails.FormatValidatedIdempotent | src/pages/ServiceDetails/ServiceDetailsPage.tsx:146 | A second run adds nothing |
| ServiceDetails.UncheckedRulesUnchanged | src/pages/ServiceDetails/ServiceDetailsPage.tsx:139-146 | Rules whose checks are all null never throw and change nothing, even without validations of their own; with no rules the `destinationrule` key may be missing |
| ServiceDetails.FormatValidatedUntouched | src/pages/ServiceDetails/ServiceDetailsPage.tsx:144-145 | A destination rule whose every check is null keeps its validation unchanged |
| ServiceDetails.AddFormatValidation | src/pages/ServiceDetails/ServiceDetailsPage.tsx:138-153 | When no turn throws, the nested maps are updated in place to `FormatValidated` of their old contents and the same object is returned. Otherwise the result is the TypeError (`None`) and the turns before the throwing one have already been applied in place |

## Left out

- Rendering and every patternfly widget (`Wizard`, `ListView`, `Slider`, tabs, navigation) with their styles: view code only.
- `onCreate`'s two `API.createIstioConfigDetail` calls, `Promise.all`, `MessageCenter.add` and the `onClose(true)` callbacks: network I/O. `OnCreate` returns the two objects it would send.
- `JSON.stringify` of the built objects: library serialisation.
- The page's `fetchBackend`, `componentDidMount`, `componentDidUpdate`, `navigateToJaeger`, `activeTab` and `tabSelectHandler`: network calls and browser routing.
- `serverConfig.istioLabels.versionLabelName` and `DestinationRuleValidator.formatValidation`: configuration and a validator that are not part of this model, taken as parameters.
- The `DISABLE` and `ROUND_ROBIN` constants come from TrafficPolicy.tsx, which is not part of this model; they are taken as the strings `"DISABLE"` and `"ROUND_ROBIN"`.
- The `Rule` type comes from MatchingRouting.tsx, which is not part of this model. Its route type is reduced to workload or not workload, which is the only distinction `createIstioTraffic` makes.
- src/components/CytoscapeGraph/graphs/ColaGraph.ts: a constant layout object with no logic.
- Floating point. Weights are JavaScript numbers; the model uses unbounded integers. `Math.round(100 / n)` is exact in integers, but a fractional weight passed to `onWeight` is not modelled.
- React's `setState` is modelled as a synchronous update. The `onChange` callback becomes an event that `ResetState` and `OnWeight` return, not a call into the parent.
- WeightedRouting.ResetWeights: the source adds the remainder only when it is positive; this specification function always adds it, which gives the same rows since adding 0 changes nothing. The method `ResetState` keeps the source's `> 0` guard.
- IstioWizard.VersionOf: a workload without a `labels` object makes `createIstioTraffic` throw a TypeError, since the `!` at src/components/IstioWizards/IstioWizard.tsx:154 only silences the type checker. The model gives every workload a labels map, so that error path is not modelled.
- ServiceDetails.AddFormatValidation: the TypeError it returns as `None` is, in the source, caught by the `.catch` of `fetchBackend` at src/pages/ServiceDetails/ServiceDetailsPage.tsx:133-135, which skips `setState` and reports the error; `fetchBackend` is not part of this model.
- WeightedRouting.WeightedRouting.OnLock: `onChange` hands the wizard the editor's own array (src/components/IstioWizards/WeightedRouting.tsx:69, :115), so later in-place changes by `onLock` also reach the wizard's `workloads`. The model hands over a copy. `AfterLock` and `AfterLockKeepsTotal` show that `onLock` changes no name or weight, which are all that `createIstioTraffic` reads.
- The `console.log('Unrecognized type')` for an unknown wizard type at src/components/IstioWizards/IstioWizard.tsx:220: logging.
- IstioWizard.CompareWorkloads: JavaScript `includes` compares objects by reference; the model compares workload values, so two equal but distinct objects count as the same here.
- ServiceDetails.SearchValidation: the source returns an empty object `{}` when nothing is found; the model returns `None`.
- ServiceDetails.AddFormatValidation: the source mutates the same object that `details.validations` refers to; the model has one `Validations` object and does not model that second reference.
- Dictionary keys such as `__proto__` that behave specially in JavaScript objects: keys are plain strings in Dafny maps.

## Findings

| source | as written | input that shows it | evidently intended | confidence | as-written member | corrected member |
|---|---|---|---|---|---|---|
| src/components/IstioWizards/WeightedRouting.tsx:54-64 | each row gets `Math.round(100 / n)` and the last also gets `100 % n` | 6 workloads: 17 × 5 + 21 = 106, so `checkTotalWeight` fails right after "evenly distribute" | a reset that always totals 100: `floor(100 / n)` per row plus the remainder on the last | not executed | WeightedRouting.ResetBalancedIff | WeightedRouting.EvenWeightsBalanced |
| src/pages/ServiceDetails/ServiceDetailsPage.tsx:76-87 | the type and name are parsed into `parsed`, then `{}` is returned | `?destinationrule=reviews` gives no type and no name, so no validation is selected and the URL never gets `?list=` | return `parsed` | not executed | ServiceDetails.ParseSearchDiscards | ServiceDetails.ParseSearchIntendedRoundTrip |
