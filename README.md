# Terraform coupling and plan analysers, modelled in Dafny

This project models the two analysis scripts of an infrastructure-as-code
study.

**`generate_dependency_graph.py`** reads the DOT text printed by `terraform graph` and:
- turns it into a node set and an edge list;
- counts in-degrees and out-degrees;
- derives coupling metrics: edges per node, density, hubs above the 90th in-degree percentile, leaves and roots, degree statistics, mutual edge pairs, and the ten most depended-upon nodes;
- can also group the nodes into seven categories by the shape of their address (provider, module, data source, variable, output, local, resource) and summarise the edges between categories.

**`parse_plan.py`** reads the JSON of `terraform show -json` and:
- extracts the resource changes, falling back to the planned resources;
- tallies the actions and derives blast radius, change surface area and a weighted disruption score;
- lists the provider configurations with `access_key` removed;
- reports the drift recorded against the prior state.

The modules follow the scripts:

| module | models |
|---|---|
| `DotScan` | the two regular expressions of `parse_dot` as scanners, one match at a time, leftmost first and non-overlapping as `finditer` finds them |
| `DotParse` | `parse_dot` |
| `Degrees` | `build_adjacency` |
| `Hubs` | `identify_hub_nodes` and the top-depended ranking |
| `GraphMetrics` | `compute_graph_metrics` |
| `NodeClassifier` | `classify_node_type` |
| `Simplifier` | `generate_simplified_graph` |
| `PlanModel` | the plan JSON and `extract_resource_changes` |
| `PlanMetrics` | `compute_metrics` |
| `PlanSignals` | `extract_provider_info` and `extract_state_drift_signals` |

`Strings`, `Sorting`, `Enumeration`, `Ratio` and `Optional` hold the Python built-ins these rely on:
- `in` on strings and `startswith`;
- `sorted`, which is stable;
- the iteration order of a set or dict;
- exact quotients;
- missing keys.

Code that loops and updates a dict or list is a `method` with loop invariants, proved against a function that states the result:
- `ParseDot`, `BuildAdjacency`;
- `GroupByType`, `CountFlows`, `GenerateSimplifiedGraph`;
- `Scan`, `CountActions`, `ComputeMetrics`;
- `ExtractProviderInfo`, `ExtractStateDriftSignals`.

The expression-only code is functions and lemmas.

A Python `set` or `dict` is iterated in an order the language leaves open. `Enumeration.Elements` stands for that order, and no stated property depends on it. The ghost functions `ComputeGraphMetrics`, `IdentifyHubNodes` and `TopDepended` are built on it.

## Model

| member | source | states |
|---|---|---|
| DotScan.QuotedAtExact | analysis/scripts/generate_dependency_graph.py:38 | `"([^"]+)"` matches at position i up to j exactly when the text there is a quote, a non-empty name without quotes, and a quote |
| DotScan.EdgeAtExact | analysis/scripts/generate_dependency_graph.py:38 | the edge pattern matches from i to j, capturing src and dst, exactly when that text is `"src"`, white space, `->`, white space, `"dst"` |
| DotScan.DeclAtExact | analysis/scripts/generate_dependency_graph.py:40 | the declaration pattern matches at i exactly when i starts a line and the text is white space, `"name"`, white space, `[` |
| DotScan.EdgeScan | analysis/scripts/generate_dependency_graph.py:42-43 | every captured endpoint of every edge match is a non-empty name without quotes |
| DotScan.DeclScan | analysis/scripts/generate_dependency_graph.py:51-52 | every captured declaration name is a non-empty name without quotes |
| DotParse.ParseGraph | analysis/scripts/generate_dependency_graph.py:28-56 | both ends of every edge are nodes; every node is a name that is not a `[root]` meta-node |
| DotParse.ParseDot | analysis/scripts/generate_dependency_graph.py:42-56 | the two loops build exactly the graph `ParseGraph` describes |
| DotParse.KeptEdgesMembers | analysis/scripts/generate_dependency_graph.py:44-49 | an edge is kept exactly when it is matched and neither end starts with `[root]` |
| DotParse.KeptEdgesCount | analysis/scripts/generate_dependency_graph.py:42-49 | one edge per clean match, duplicates included: the edge list is a list, not a set |
| DotParse.NodeOrigin | analysis/scripts/generate_dependency_graph.py:47-54 | a node is the end of a kept edge or a declared name that is not a meta-node, and nothing else |
| DotParse.MetaMatchDropped | analysis/scripts/generate_dependency_graph.py:45-46 | a match with a `[root]` end contributes nothing: removing it leaves the edges unchanged |
| DotParse.NoDeclAfterStart | analysis/scripts/generate_dependency_graph.py:40 | in one-line text, `^` under MULTILINE holds only at the start, so no declaration matches later |
| DotParse.OneEdgeScenario | analysis/scripts/generate_dependency_graph.py:28-56 | `"a" -> "b"` parses to nodes {a, b} and the one edge a -> b |
| DotParse.MetaEdgeScenario | analysis/scripts/generate_dependency_graph.py:45-46 | an edge from `[root] module.foo (expand)` gives an empty graph |
| Degrees.BuildAdjacency | analysis/scripts/generate_dependency_graph.py:59-73 | the counting loop and the setdefault loop return exactly the in-degree and out-degree maps |
| Degrees.Increment | analysis/scripts/generate_dependency_graph.py:65-66 | `d[v] += 1` on a defaultdict: v becomes a key, its count goes up by one, other keys keep theirs |
| Degrees.SetDefault | analysis/scripts/generate_dependency_graph.py:70-71 | `setdefault(v, 0)`: v becomes a key, an existing count is kept, a new one is 0 |
| Degrees.CountStep | analysis/scripts/generate_dependency_graph.py:64-66 | counting one more edge is `Increment` at that edge's end |
| Degrees.SetDefaultStep | analysis/scripts/generate_dependency_graph.py:69-71 | adding one more node to the map is `SetDefault` of that node |
| Degrees.DegreeMapDomain | analysis/scripts/generate_dependency_graph.py:68-71 | every node is a key; a node at no edge end has degree 0; a graph whose edges stay inside the nodes has exactly the nodes as keys |
| Degrees.DegreeOutsideEnds | analysis/scripts/generate_dependency_graph.py:64-66 | a degree is positive exactly when the node is at that end of some edge |
| Degrees.SumDegreesIsEdgeCount | analysis/scripts/generate_dependency_graph.py:64-66 | over distinct keys covering every edge end, the degrees add up to the edge count |
| Degrees.DegreeSums | analysis/scripts/generate_dependency_graph.py:64-66 | all in-degrees add up to the edge count, and so do all out-degrees |
| Hubs.ThresholdIndex | analysis/scripts/generate_dependency_graph.py:86-87 | `min(int(n * p), n - 1)` is a valid index |
| Hubs.Threshold | analysis/scripts/generate_dependency_graph.py:84-87 | the threshold is an in-degree of some node; at most idx nodes lie below it and more than idx lie at or below it, making it the idx-th order statistic |
| Hubs.ThresholdIsOrderStatistic | analysis/scripts/generate_dependency_graph.py:84-87 | the entry at idx of the ascending in-degree list has exactly that order-statistic characterisation |
| Hubs.HubEntries | analysis/scripts/generate_dependency_graph.py:89-93 | the comprehension keeps exactly the nodes whose in-degree reaches the threshold and is positive, each with its in-degree |
| Hubs.HubsAbove | analysis/scripts/generate_dependency_graph.py:89-94 | every hub with its in-degree, each once, sorted by in-degree descending |
| Hubs.IdentifyHubNodes | analysis/scripts/generate_dependency_graph.py:76-94 | an empty map gives no hubs; otherwise exactly the nodes reaching the threshold with positive in-degree, counted once each, by in-degree descending |
| Hubs.HubsExistIffPositive | analysis/scripts/generate_dependency_graph.py:81-94 | there is a hub exactly when some in-degree is positive: an all-zero graph has none, and a non-zero one always has one |
| Hubs.CountBelowSortAsc | analysis/scripts/generate_dependency_graph.py:84 | sorting the in-degrees does not change how many lie below a value |
| Hubs.Positive | analysis/scripts/generate_dependency_graph.py:149 | `if deg > 0` keeps exactly the entries with a positive count |
| Hubs.PositiveKeepsOrder | analysis/scripts/generate_dependency_graph.py:149 | filtering a descending ranking keeps it descending |
| Hubs.TopOf | analysis/scripts/generate_dependency_graph.py:133 | at most ten entries, all positive, descending. An entry left out ranks no higher than any kept. With fewer than ten kept, every positive entry is kept |
| Hubs.TopDepended | analysis/scripts/generate_dependency_graph.py:148-150 | `top_depended_nodes`: each entry is a node with its positive in-degree, descending, at most ten, each node once. A node left out has in-degree no higher than any node kept. Fewer than ten means every depended-upon node is listed |
| Hubs.RankedDistinct | analysis/scripts/generate_dependency_graph.py:133 | the in-degree ranking lists each node once |
| Hubs.PositiveDistinct | analysis/scripts/generate_dependency_graph.py:149 | filtering a list without repeats leaves one without repeats |
| Hubs.ItemsMembers | analysis/scripts/generate_dependency_graph.py:133 | `in_degree.items()` holds exactly the pairs of a node and its in-degree |
| GraphMetrics.CouplingIsScaledDensity | analysis/scripts/generate_dependency_graph.py:102-105 | with two nodes or more the coupling score is density times n - 1; both are 0 without edges |
| GraphMetrics.DensityBounded | analysis/scripts/generate_dependency_graph.py:104-105 | density is at most 1 exactly when there are no more edges than ordered pairs of distinct nodes |
| GraphMetrics.LeavesAndRoots | analysis/scripts/generate_dependency_graph.py:114-118 | leaves are the nodes no edge starts at; roots are the nodes no edge ends at |
| GraphMetrics.LeafCount | analysis/scripts/generate_dependency_graph.py:114-118 | leaf count plus the number of edge sources is the node count; likewise roots and targets |
| GraphMetrics.TotalDegrees | analysis/scripts/generate_dependency_graph.py:121 | one entry per node, in iteration order, equal to its in-degree plus out-degree |
| GraphMetrics.MaxOf | analysis/scripts/generate_dependency_graph.py:123 | `max` is an element no element exceeds |
| GraphMetrics.MinOf | analysis/scripts/generate_dependency_graph.py:124 | `min` is an element no element is below |
| GraphMetrics.SumBetween | analysis/scripts/generate_dependency_graph.py:122 | a sum lies between length times a lower bound and length times an upper bound |
| GraphMetrics.AverageBetween | analysis/scripts/generate_dependency_graph.py:121-124 | min_degree <= avg_degree <= max_degree |
| GraphMetrics.DegreeTotal | analysis/scripts/generate_dependency_graph.py:121 | the total degrees of the nodes add up to twice the edge count |
| GraphMetrics.AverageIsTwiceCoupling | analysis/scripts/generate_dependency_graph.py:102-122 | the average degree is twice the coupling score |
| GraphMetrics.CircularPairs | analysis/scripts/generate_dependency_graph.py:126-130 | exactly the edges whose reverse is also an edge, never more than there are edges |
| GraphMetrics.MutualPair | analysis/scripts/generate_dependency_graph.py:126-130 | a -> b with b -> a counts as two pairs |
| GraphMetrics.NoneCircular | analysis/scripts/generate_dependency_graph.py:126-130 | no edge with its reverse present: nothing is counted |
| GraphMetrics.TriangleUncounted | analysis/scripts/generate_dependency_graph.py:13 | a three-node cycle counts zero pairs: the measure sees 2-cycles only, not the strongly connected components the docstring promises |
| GraphMetrics.FirstTen | analysis/scripts/generate_dependency_graph.py:141 | `hubs[:10]` is a prefix of at most ten; the whole list when shorter |
| GraphMetrics.DegreeStats | analysis/scripts/generate_dependency_graph.py:120-124 | all 0 for no nodes; otherwise min and max are degrees of nodes, the least and the greatest, and the average lies between them |
| GraphMetrics.ComputeGraphMetrics | analysis/scripts/generate_dependency_graph.py:97-151 | node and edge counts are the input's; at most ten hubs listed and no more than the hub count, in descending order of in-degree and each with a positive in-degree; no more circular pairs than edges |
| GraphMetrics.ListedHubs | analysis/scripts/generate_dependency_graph.py:141 | the first ten hubs are in descending order of in-degree and every one has a positive in-degree |
| GraphMetrics.MetricsConsistent | analysis/scripts/generate_dependency_graph.py:97-151 | on a graph whose edges stay inside the nodes: leaf and root counts match the edge sources and targets; the average degree is twice the coupling; coupling is density times n - 1 |
| GraphMetrics.OneEdgeMetrics | analysis/scripts/generate_dependency_graph.py:97-151 | for `a -> b`: coupling and density 1/2; one leaf and one root; every degree 1; no circular pair; one hub, `b` |
| GraphMetrics.OneEdgeThreshold | analysis/scripts/generate_dependency_graph.py:84-87 | the 90th-percentile in-degree of {a: 0, b: 1} is 1 |
| NodeClassifier.FirstMatch | analysis/scripts/generate_dependency_graph.py:154-168 | a first-match decision list returns the category of a firing rule before which no rule fires, and the fallback when no rule fires |
| NodeClassifier.ClassifyIsFirstMatch | analysis/scripts/generate_dependency_graph.py:154-168 | `classify_node_type` is the six rules read first to last, with `resource` as the fallback |
| NodeClassifier.ProviderFirst | analysis/scripts/generate_dependency_graph.py:156-168 | a name is a provider exactly when `.provider` is in it or it starts with `provider`; it is a resource exactly when no rule fires |
| NodeClassifier.PrefixesExclusive | analysis/scripts/generate_dependency_graph.py:158-167 | no name starts with two of the five address prefixes |
| NodeClassifier.PrefixDecides | analysis/scripts/generate_dependency_graph.py:158-167 | for a non-provider name, each of the five categories holds exactly when the name starts with its prefix, so their order does not matter |
| NodeClassifier.ModuleProviderScenario | analysis/scripts/generate_dependency_graph.py:156-159 | `module.vpc.provider` is a provider, not a module |
| NodeClassifier.VariableScenario | analysis/scripts/generate_dependency_graph.py:162-163 | `var.region` is a variable |
| Simplifier.GroupByType | analysis/scripts/generate_dependency_graph.py:178-181 | a category is a key exactly when some node falls in it. Each group lists the category's nodes, each once |
| Simplifier.CountFlows | analysis/scripts/generate_dependency_graph.py:184-188 | a category pair is a key exactly when some edge runs between those categories, and maps to the number of such edges. The insertion order lists each key once |
| Enumeration.EntriesOf | analysis/scripts/generate_dependency_graph.py:194 | a dict's `items()` pairs each key, in the given key order, with its value; used for `in_degree.items()` and `edge_flows.items()` |
| Simplifier.Sample | analysis/scripts/generate_dependency_graph.py:197 | `sorted(names)[:5]` is sorted, has min(5, n) names, all taken from the input, and no name left out sorts before one kept |
| Simplifier.NodeTypeCounts | analysis/scripts/generate_dependency_graph.py:191 | each present category maps to the size of its group; the counts add up to the node count |
| Simplifier.SampleNodes | analysis/scripts/generate_dependency_graph.py:196-199 | the sample keys are the group keys. Each sample is sorted and takes min(5, group size) of its group's nodes. They are the smallest names |
| Simplifier.GenerateSimplifiedGraph | analysis/scripts/generate_dependency_graph.py:171-199 | category counts are group sizes and add up to the node count. Flows are sorted by count descending and list each category pair once with its true positive count. Every edge's pair appears, and the counts add up to the edge count. Samples are as in `SampleNodes` |
| Simplifier.GroupsPartition | analysis/scripts/generate_dependency_graph.py:178-181 | the seven category groups partition the nodes: their sizes add up to the node count |
| Simplifier.FlowCountPositive | analysis/scripts/generate_dependency_graph.py:184-188 | the pair of every edge has a positive flow count |
| Simplifier.FlowTotal | analysis/scripts/generate_dependency_graph.py:184-188 | over distinct keys covering every edge, the flow counts add up to the edge count |
| Simplifier.ItemsSum | analysis/scripts/generate_dependency_graph.py:192-195 | the listed counts add up to the flow counts of the listed keys |
| Simplifier.SmallestFirst | analysis/scripts/generate_dependency_graph.py:197 | a prefix of a sorted list is sorted and holds its smallest elements |
| Sorting.SortStrings | analysis/scripts/parse_plan.py:121-123 | `sorted` on strings is sorted and a permutation of its input |
| Sorting.SortedStringsUnique | analysis/scripts/parse_plan.py:82 | two sorted permutations of the same strings are equal, so the sorted form does not depend on input order |
| Sorting.SortDesc | analysis/scripts/generate_dependency_graph.py:94 | `sorted(..., reverse=True)` by count is ordered by count descending and is a permutation of its input |
| Sorting.SortDescSum | analysis/scripts/generate_dependency_graph.py:194 | sorting keeps the sum of the counts |
| Strings.ContainsIff | analysis/scripts/generate_dependency_graph.py:156 | `p in s` holds exactly when p occurs at some position of s |
| PlanModel.ExtractResourceChanges | analysis/scripts/parse_plan.py:39-56 | a non-empty `resource_changes` is returned as is. Otherwise there is one pseudo-change per planned resource, in order: actions `["create"]`, fields copied, `""` where missing |
| PlanMetrics.ModuleOf | analysis/scripts/parse_plan.py:70 | the module is never empty; it is `root` exactly when the address is missing, empty or `root` |
| PlanMetrics.Add | analysis/scripts/parse_plan.py:74-78 | `counts[key] += n` on a Counter changes that key only |
| PlanMetrics.File | analysis/scripts/parse_plan.py:82-88 | appending to `changes_by_action[key]` extends that list by the entry and leaves the others |
| PlanMetrics.CountActions | analysis/scripts/parse_plan.py:77-78 | the loop adds to each counter the number of times its action occurs in the list |
| PlanMetrics.Scan | analysis/scripts/parse_plan.py:66-88 | after the loop the counters are the tallies, and the two sets and the groups are those of the whole list |
| PlanMetrics.Summarize | analysis/scripts/parse_plan.py:90-95 | to_add, to_change, to_destroy, to_replace and no_op are the tallies of `create`, `update`, `delete`, `replace` and `no_op`; total_changes is the sum of the first four |
| PlanMetrics.Disruption | analysis/scripts/parse_plan.py:103-109 | the score is create + 2·update + 5·delete + 5·replace. It is at least the change total, and equals it exactly when there is no update, delete or replace |
| PlanMetrics.SortedList | analysis/scripts/parse_plan.py:121-123 | `sorted(set)` is sorted and holds each element of the set once |
| PlanMetrics.ComputeMetrics | analysis/scripts/parse_plan.py:59-127 | summary as in `Summarize`; blast radius is the total; the disruption score is create + 2·update + 5·delete + 5·replace of the summary's counts, at least the total and equal to it exactly when there is no update, delete or replace. Surface area and module count are the sizes of the sets, whose sorted lists are returned. `changes_by_action` is the grouping of the whole list |
| PlanMetrics.NoOpInert | analysis/scripts/parse_plan.py:72-75 | a `["no-op"]` change adds one to `no_op` and changes nothing else |
| PlanMetrics.ActionsCounted | analysis/scripts/parse_plan.py:77-88 | any other change adds each of its actions to the counters and exactly its type and module to the sets, and appends its entry to the list of its action key; nothing else changes |
| PlanMetrics.ByActionComplete | analysis/scripts/parse_plan.py:82-88 | every change that is not a no-op is filed under its action key |
| PlanMetrics.ByActionSound | analysis/scripts/parse_plan.py:82-88 | every filed entry comes from a change that is not a no-op and has that action key |
| PlanMetrics.ActionKeyOrderFree | analysis/scripts/parse_plan.py:82 | action lists with the same actions in any order share one key |
| PlanMetrics.ReplaceKeyScenario | analysis/scripts/parse_plan.py:82 | `["delete", "create"]` and `["create", "delete"]` are both filed under `create,delete` |
| PlanMetrics.AllCreates | analysis/scripts/parse_plan.py:90-95 | a list of create-only changes tallies one create per change and nothing else |
| PlanMetrics.FallbackCounts | analysis/scripts/parse_plan.py:42-55 | on the planned-values fallback every planned resource is counted as one create, and nothing else is counted |
| PlanMetrics.RootModuleScenario | analysis/scripts/parse_plan.py:70 | a missing or empty module address is reported as `root`, any other as itself |
| PlanSignals.Redact | analysis/scripts/parse_plan.py:138-140 | the expressions keep every key except `access_key`, with their values |
| PlanSignals.RedactOnlyAccessKey | analysis/scripts/parse_plan.py:138-140 | `access_key` never survives; nothing else is removed; without it the expressions are unchanged |
| PlanSignals.ExtractProviderInfo | analysis/scripts/parse_plan.py:130-142 | one entry per configured provider. Each holds its version constraint (`""` when missing) and its expressions without `access_key` |
| PlanSignals.ExtractStateDriftSignals | analysis/scripts/parse_plan.py:145-166 | one drift item per drift entry, in order, with `""` and `[]` for what is missing. The count is the number of entries, and drift is detected exactly when it is positive. Serial and version come from `prior_state`, absent when missing |

## Notes on the source

- **The a -> b scenario.** For the one-edge graph a -> b, the 90th-percentile rule at generate_dependency_graph.py:84-93 makes `b` a hub:
  - the in-degrees sorted are [0, 1];
  - the index is `min(int(2 * 0.9), 1) = 1`, so the threshold is 1;
  - `b` has in-degree 1 >= 1 and 1 > 0.

  `GraphMetrics.OneEdgeMetrics` proves this one hub, `b`.
- **Strongly connected components.** The module docstring (generate_dependency_graph.py:13) promises a count of them. No such count is computed. The only cycle measure is the mutual-edge count at lines 126-130. `GraphMetrics.TriangleUncounted` shows it misses a three-node cycle, and the model adds no component detection.
- **Missing type in the fallback.** A planned resource without a type becomes a change with type `""`, not `unknown`: the fallback writes `""` before `compute_metrics` would default it.

## Left out

- I/O: reading files and standard input, argument parsing, `load_plan`, both `main` functions, JSON output and the generation timestamps. The model starts from the DOT text and the decoded plan.
- The empty-input check of `main` (generate_dependency_graph.py:248-250) belongs to `main`.
- Rounding: `coupling_score`, `graph_density` and `avg_degree` are exact fractions (`Ratio.Fraction`). `round(..., 4)`, `round(..., 6)` and `round(..., 2)` on floats are not modelled.
- The regular-expression engine: the two patterns are modelled as hand-written scanners. `\s` is the set of characters Python's `str.isspace` accepts.
- Tie order. Whichever order Python's set and dict iteration and the stable sort give to equal counts is left open. This covers hubs, top-depended nodes, flows and the list of all degrees. `Elements` is an arbitrary enumeration.
- `generate_simplified_graph`'s `max_nodes` parameter: the source never reads it.
- `changes_by_action` and `node_type_counts` are maps; the key order of the emitted JSON objects is not modelled.
- JSON `null` is modelled as a missing key, but the source treats a key that is present with value `null` differently. Python's `.get` then returns `None` instead of the default, and the two cases diverge:
  - **A `null` scalar.** For `address` (parse_plan.py:49, 69, 154), `type` (parse_plan.py:50, 155, and 68 when no string type sits beside it) or `version_constraint` (parse_plan.py:137), the source emits `null` in its output where the model emits the default `""` or `"unknown"`. A `null` `actions` list of a drift entry (line 156) is likewise emitted as `null` where the model emits `[]`.
  - **A `null` object or list.** The source raises AttributeError or TypeError on it at parse_plan.py:44, 45, 49, 54, 67, 77, 133, 135, 137, 139, 151, 154, 156 or 164.
  - **A `null` type next to a string type.** `sorted` at line 121 raises TypeError.
  - **A `null` action in a change.** `sorted` or `",".join` at line 82 raises.

  The model captures neither the emitted `null`s nor these failures: every input it accepts has a result built from the defaults.
- `Hubs.ThresholdIndex`: a negative or non-finite percentile cannot be expressed, because the percentile is a non-negative fraction.
- `GraphMetrics.ComputeGraphMetrics` and `Hubs.IdentifyHubNodes` are ghost functions because they depend on iteration order. Their properties are proved as lemmas, not as executable code.
