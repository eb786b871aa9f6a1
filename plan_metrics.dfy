/**
 * `compute_metrics`: one pass over the resource changes. A change whose
 * action list is exactly `["no-op"]` only adds to the `no_op` counter;
 * every other change adds one to the counter of each action it lists, puts
 * its resource type and module into two sets, and is filed under its action
 * key (the sorted actions joined by commas). The summary numbers are then
 * read off the counters.
 */
module PlanMetrics {
  import opened Optional
  import opened Strings
  import opened Sorting
  import opened PlanModel
  import opened Enumeration

  /** The counter the normalised no-op goes to. */
  const NoOpKey: string := "no_op"

  /** Weights of the disruption score. */
  const CreateWeight: nat := 1
  const UpdateWeight: nat := 2
  const DeleteWeight: nat := 5
  const ReplaceWeight: nat := 5

  /** An entry of `changes_by_action`. */
  datatype ChangeEntry = ChangeEntry(address: string, resourceType: string, moduleName: string)

  datatype Summary = Summary(
    totalChanges: nat,
    toAdd: nat,
    toChange: nat,
    toDestroy: nat,
    toReplace: nat,
    noOp: nat)

  datatype Metrics = Metrics(
    summary: Summary,
    changeSurfaceArea: nat,
    affectedResourceTypes: seq<string>,
    affectedModuleCount: nat,
    affectedModules: seq<string>,
    blastRadius: nat,
    disruptionScore: nat,
    changesByAction: map<string, seq<ChangeEntry>>)

  /* ---------- one change ---------- */

  /** `actions == ["no-op"]` */
  predicate IsNoOp(actions: seq<string>)
  {
    actions == ["no-op"]
  }

  function Actions(rc: ResourceChange): seq<string>
  {
    ActionsOf(rc.change)
  }

  /** `rc.get("type", "unknown")` */
  function TypeOf(rc: ResourceChange): string
  {
    rc.resourceType.GetOr("unknown")
  }

  /** `rc.get("module_address", "") or "root"` */
  function ModuleOf(rc: ResourceChange): (m: string)
    ensures m != ""
    ensures m == "root" <==> rc.moduleAddress in {None, Some(""), Some("root")}
  {
    var m := rc.moduleAddress.GetOr("");
    if m == "" then "root" else m
  }

  function EntryOf(rc: ResourceChange): ChangeEntry
  {
    ChangeEntry(rc.address.GetOr(""), TypeOf(rc), ModuleOf(rc))
  }

  /** `",".join(sorted(actions))` */
  function ActionKey(actions: seq<string>): string
  {
    Join(SortStrings(actions), ",")
  }

  /** What one change adds to the counter `key`. */
  function Contribution(rc: ResourceChange, key: string): nat
  {
    if IsNoOp(Actions(rc)) then (if key == NoOpKey then 1 else 0)
    else Occurrences(Actions(rc), key)
  }

  /* ---------- the whole list ---------- */

  /** `action_counts[key]` after the loop. */
  function Tally(changes: seq<ResourceChange>, key: string): nat
  {
    if changes == [] then 0
    else Tally(changes[..|changes| - 1], key) + Contribution(changes[|changes| - 1], key)
  }

  /** `resource_types` after the loop. */
  function Types(changes: seq<ResourceChange>): set<string>
  {
    if changes == [] then {}
    else
      var last := changes[|changes| - 1];
      Types(changes[..|changes| - 1]) + (if IsNoOp(Actions(last)) then {} else {TypeOf(last)})
  }

  /** `affected_modules` after the loop. */
  function Modules(changes: seq<ResourceChange>): set<string>
  {
    if changes == [] then {}
    else
      var last := changes[|changes| - 1];
      Modules(changes[..|changes| - 1]) + (if IsNoOp(Actions(last)) then {} else {ModuleOf(last)})
  }

  /** `changes_by_action[key].append(entry)` on a `defaultdict(list)`. */
  function File(groups: map<string, seq<ChangeEntry>>, key: string, e: ChangeEntry): (r: map<string, seq<ChangeEntry>>)
    ensures r.Keys == groups.Keys + {key}
    ensures r[key] == (if key in groups then groups[key] else []) + [e]
    ensures forall k :: k in groups && k != key ==> r[k] == groups[k]
  {
    groups[key := (if key in groups then groups[key] else []) + [e]]
  }

  /** `changes_by_action` after the loop. */
  function ByAction(changes: seq<ResourceChange>): map<string, seq<ChangeEntry>>
  {
    if changes == [] then map[]
    else
      var last := changes[|changes| - 1];
      var before := ByAction(changes[..|changes| - 1]);
      if IsNoOp(Actions(last)) then before else File(before, ActionKey(Actions(last)), EntryOf(last))
  }

  /** `Counter.get(key, 0)` */
  function Get(counts: map<string, nat>, key: string): nat
  {
    if key in counts then counts[key] else 0
  }

  /** `counts[key] += n` on a Counter. */
  function Add(counts: map<string, nat>, key: string, n: nat): (r: map<string, nat>)
    ensures forall k :: Get(r, k) == Get(counts, k) + (if k == key then n else 0)
  {
    counts[key := Get(counts, key) + n]
  }

  /** The weighted score: creates count once, updates twice, deletes and replaces five times. */
  function Disruption(create: nat, update: nat, delete: nat, replace: nat): (d: nat)
    ensures d == create + 2 * update + 5 * delete + 5 * replace
    ensures d >= create + update + delete + replace
    ensures d == create + update + delete + replace <==> update == 0 && delete == 0 && replace == 0
  {
    create * CreateWeight + update * UpdateWeight + delete * DeleteWeight + replace * ReplaceWeight
  }

  /* ---------- the method ---------- */

  /** `for action in actions: action_counts[action] += 1` */
  method CountActions(counts: map<string, nat>, actions: seq<string>) returns (r: map<string, nat>)
    ensures forall k :: Get(r, k) == Get(counts, k) + Occurrences(actions, k)
  {
    r := counts;
    for j := 0 to |actions|
      invariant forall k :: Get(r, k) == Get(counts, k) + Occurrences(actions[..j], k)
    {
      OccurrencesStep(actions, j);
      r := Add(r, actions[j], 1);
    }
    assert actions[..|actions|] == actions;
  }

  lemma OccurrencesStep(s: seq<string>, j: nat)
    requires j < |s|
    ensures forall k :: Occurrences(s[..j + 1], k) == Occurrences(s[..j], k) + (if s[j] == k then 1 else 0)
  {
    forall k ensures Occurrences(s[..j + 1], k) == Occurrences(s[..j], k) + (if s[j] == k then 1 else 0) {
      OccurrencesAppend(s[..j], s[j], k);
      assert s[..j + 1] == s[..j] + [s[j]];
    }
  }

  /** The sorted list of a set of names: `sorted(s)`. */
  method SortedList(s: set<string>) returns (r: seq<string>)
    ensures SortedStrings(r) && |r| == |s|
    ensures forall x :: x in r <==> x in s
  {
    var acc: seq<string> := [];
    var rest := s;
    while rest != {}
      invariant rest <= s
      invariant forall x :: x in acc <==> x in s - rest
      invariant |acc| == |s - rest|
      decreases rest
    {
      var x :| x in rest;
      assert s - (rest - {x}) == (s - rest) + {x};
      acc := acc + [x];
      rest := rest - {x};
    }
    assert s - rest == s;
    r := SortStrings(acc);
    SameElements(r, acc);
  }

  /** One change of the loop, the no-op branch included. */
  method ScanOne(rc: ResourceChange, counts: map<string, nat>, types: set<string>, modules: set<string>,
                 groups: map<string, seq<ChangeEntry>>)
    returns (counts': map<string, nat>, types': set<string>, modules': set<string>, groups': map<string, seq<ChangeEntry>>)
    ensures forall k :: Get(counts', k) == Get(counts, k) + Contribution(rc, k)
    ensures types' == types + (if IsNoOp(Actions(rc)) then {} else {TypeOf(rc)})
    ensures modules' == modules + (if IsNoOp(Actions(rc)) then {} else {ModuleOf(rc)})
    ensures groups' == if IsNoOp(Actions(rc)) then groups else File(groups, ActionKey(Actions(rc)), EntryOf(rc))
  {
    var actions := Actions(rc);
    if IsNoOp(actions) {
      counts' := Add(counts, NoOpKey, 1);
      return counts', types, modules, groups;
    }
    counts' := CountActions(counts, actions);
    types' := types + {TypeOf(rc)};
    modules' := modules + {ModuleOf(rc)};
    groups' := File(groups, ActionKey(actions), EntryOf(rc));
  }

  /** The loop of `compute_metrics`. */
  method Scan(changes: seq<ResourceChange>)
    returns (counts: map<string, nat>, types: set<string>, modules: set<string>, groups: map<string, seq<ChangeEntry>>)
    ensures forall k :: Get(counts, k) == Tally(changes, k)
    ensures types == Types(changes) && modules == Modules(changes) && groups == ByAction(changes)
  {
    counts, types, modules, groups := map[], {}, {}, map[];
    for i := 0 to |changes|
      invariant forall k :: Get(counts, k) == Tally(changes[..i], k)
      invariant types == Types(changes[..i]) && modules == Modules(changes[..i]) && groups == ByAction(changes[..i])
    {
      ScanStep(changes, i);
      counts, types, modules, groups := ScanOne(changes[i], counts, types, modules, groups);
    }
    assert changes[..|changes|] == changes;
  }

  /** The `summary` block, read off the counters of `changes`. */
  function Summarize(ghost changes: seq<ResourceChange>, counts: map<string, nat>): (s: Summary)
    requires forall k :: Get(counts, k) == Tally(changes, k)
    ensures s.toAdd == Tally(changes, "create") && s.toChange == Tally(changes, "update")
    ensures s.toDestroy == Tally(changes, "delete") && s.toReplace == Tally(changes, "replace")
    ensures s.noOp == Tally(changes, NoOpKey)
    ensures s.totalChanges == s.toAdd + s.toChange + s.toDestroy + s.toReplace
  {
    var create, update, delete, replace := Get(counts, "create"), Get(counts, "update"), Get(counts, "delete"), Get(counts, "replace");
    Summary(create + update + delete + replace, create, update, delete, replace, Get(counts, NoOpKey))
  }

  /** `compute_metrics(changes)` */
  method ComputeMetrics(changes: seq<ResourceChange>) returns (m: Metrics)
    ensures m.summary.toAdd == Tally(changes, "create")
    ensures m.summary.toChange == Tally(changes, "update")
    ensures m.summary.toDestroy == Tally(changes, "delete")
    ensures m.summary.toReplace == Tally(changes, "replace")
    ensures m.summary.noOp == Tally(changes, NoOpKey)
    ensures m.summary.totalChanges == m.summary.toAdd + m.summary.toChange + m.summary.toDestroy + m.summary.toReplace
    ensures m.blastRadius == m.summary.totalChanges
    ensures m.disruptionScore
            == m.summary.toAdd + 2 * m.summary.toChange + 5 * m.summary.toDestroy + 5 * m.summary.toReplace
    ensures m.disruptionScore >= m.summary.totalChanges
    ensures m.disruptionScore == m.summary.totalChanges
            <==> m.summary.toChange == 0 && m.summary.toDestroy == 0 && m.summary.toReplace == 0
    ensures m.changeSurfaceArea == |Types(changes)| == |m.affectedResourceTypes|
    ensures SortedStrings(m.affectedResourceTypes) && forall t :: t in m.affectedResourceTypes <==> t in Types(changes)
    ensures m.affectedModuleCount == |Modules(changes)| == |m.affectedModules|
    ensures SortedStrings(m.affectedModules) && forall x :: x in m.affectedModules <==> x in Modules(changes)
    ensures m.changesByAction == ByAction(changes)
  {
    var counts, types, modules, groups := Scan(changes);
    var summary := Summarize(changes, counts);
    var typeList := SortedList(types);
    var moduleList := SortedList(modules);
    m := Metrics(
      summary,
      |types|,
      typeList,
      |modules|,
      moduleList,
      summary.totalChanges,
      Disruption(summary.toAdd, summary.toChange, summary.toDestroy, summary.toReplace),
      groups);
  }

  /** The loop's step: the spec functions of `changes[..i + 1]` from those of `changes[..i]`. */
  lemma ScanStep(changes: seq<ResourceChange>, i: nat)
    requires i < |changes|
    ensures forall k :: Tally(changes[..i + 1], k) == Tally(changes[..i], k) + Contribution(changes[i], k)
    ensures Types(changes[..i + 1]) == Types(changes[..i]) + (if IsNoOp(Actions(changes[i])) then {} else {TypeOf(changes[i])})
    ensures Modules(changes[..i + 1]) == Modules(changes[..i]) + (if IsNoOp(Actions(changes[i])) then {} else {ModuleOf(changes[i])})
    ensures ByAction(changes[..i + 1])
         == if IsNoOp(Actions(changes[i])) then ByAction(changes[..i])
            else File(ByAction(changes[..i]), ActionKey(Actions(changes[i])), EntryOf(changes[i]))
  {
    assert changes[..i + 1][..i] == changes[..i];
  }

  /* ---------- properties ---------- */

  /** A `["no-op"]` change adds one to `no_op` and nothing else: no counter, type, module or action group. */
  lemma NoOpInert(changes: seq<ResourceChange>, rc: ResourceChange)
    requires IsNoOp(Actions(rc))
    ensures forall k :: Tally(changes + [rc], k) == Tally(changes, k) + (if k == NoOpKey then 1 else 0)
    ensures Types(changes + [rc]) == Types(changes)
    ensures Modules(changes + [rc]) == Modules(changes)
    ensures ByAction(changes + [rc]) == ByAction(changes)
  {
    assert (changes + [rc])[..|changes|] == changes;
  }

  /** Any other change adds one to the counter of each action it lists, once per listing, adds exactly its
      type and module to the sets, and appends its entry to the list of its action key. */
  lemma ActionsCounted(changes: seq<ResourceChange>, rc: ResourceChange)
    requires !IsNoOp(Actions(rc))
    ensures forall k :: Tally(changes + [rc], k) == Tally(changes, k) + Occurrences(Actions(rc), k)
    ensures Types(changes + [rc]) == Types(changes) + {TypeOf(rc)}
    ensures Modules(changes + [rc]) == Modules(changes) + {ModuleOf(rc)}
    ensures ByAction(changes + [rc]) == File(ByAction(changes), ActionKey(Actions(rc)), EntryOf(rc))
    ensures ActionKey(Actions(rc)) in ByAction(changes + [rc])
    ensures EntryOf(rc) in ByAction(changes + [rc])[ActionKey(Actions(rc))]
  {
    assert (changes + [rc])[..|changes|] == changes;
  }

  /** The action key does not depend on the order the actions are listed in. */
  lemma ActionKeyOrderFree(a: seq<string>, b: seq<string>)
    requires multiset(a) == multiset(b)
    ensures ActionKey(a) == ActionKey(b)
  {
    SortedStringsUnique(SortStrings(a), SortStrings(b));
  }

  /** `["delete", "create"]` and `["create", "delete"]` are both filed under `"create,delete"`. */
  lemma ReplaceKeyScenario()
    ensures ActionKey(["delete", "create"]) == ActionKey(["create", "delete"]) == "create,delete"
  {
    CreateDeleteSorted();
    CreateDeleteJoined();
  }

  lemma CreateDeleteSorted()
    ensures SortStrings(["delete", "create"]) == SortStrings(["create", "delete"]) == ["create", "delete"]
  {
    var sorted := ["create", "delete"];
    assert Less("create", "delete");
    assert SortedStrings(sorted);
    assert multiset(["delete", "create"]) == multiset(sorted);
    SortedStringsUnique(SortStrings(["delete", "create"]), sorted);
    SortedStringsUnique(SortStrings(sorted), sorted);
  }

  lemma CreateDeleteJoined()
    ensures Join(["create", "delete"], ",") == "create,delete"
  {
    assert Join(["create", "delete"], ",") == "create" + "," + "delete";
  }

  /** When the changes come from planned resources, every one is a single create. */
  lemma {:induction false} AllCreates(changes: seq<ResourceChange>)
    requires forall i :: 0 <= i < |changes| ==> Actions(changes[i]) == ["create"]
    ensures Tally(changes, "create") == |changes|
    ensures forall k :: k != "create" ==> Tally(changes, k) == 0
    decreases |changes|
  {
    if changes != [] {
      var init, last := changes[..|changes| - 1], changes[|changes| - 1];
      assert forall i :: 0 <= i < |init| ==> init[i] == changes[i];
      AllCreates(init);
      assert "create"[0] != "no-op"[0];
      assert !IsNoOp(Actions(last));
      assert forall k :: Occurrences(["create"], k) == if k == "create" then 1 else 0;
    }
  }

  /** A plan without resource changes is read as one create per planned resource: that many to add and nothing else. */
  lemma FallbackCounts(plan: Plan)
    requires UsesFallback(plan)
    ensures Tally(ExtractResourceChanges(plan), "create") == |PlannedResources(plan)|
    ensures Tally(ExtractResourceChanges(plan), "update") == 0
    ensures Tally(ExtractResourceChanges(plan), "delete") == 0
    ensures Tally(ExtractResourceChanges(plan), "replace") == 0
    ensures Tally(ExtractResourceChanges(plan), NoOpKey) == 0
  {
    AllCreates(ExtractResourceChanges(plan));
  }

  /** A change with no `module_address`, or an empty one, counts for the root module. */
  lemma RootModuleScenario(address: Option<string>, resourceType: Option<string>, change: Option<Change>)
    ensures ModuleOf(ResourceChange(address, resourceType, None, change)) == "root"
    ensures ModuleOf(ResourceChange(address, resourceType, Some(""), change)) == "root"
    ensures ModuleOf(ResourceChange(address, resourceType, Some("module.vpc"), change)) == "module.vpc"
  {
  }

  /** Every change that is not a no-op is filed under its action key. */
  lemma {:induction false} ByActionComplete(changes: seq<ResourceChange>, i: nat)
    requires i < |changes| && !IsNoOp(Actions(changes[i]))
    ensures ActionKey(Actions(changes[i])) in ByAction(changes)
    ensures EntryOf(changes[i]) in ByAction(changes)[ActionKey(Actions(changes[i]))]
    decreases |changes|
  {
    var n := |changes| - 1;
    if i == n {
      LastFiled(changes);
    } else {
      var before := changes[..n];
      assert before[i] == changes[i];
      ByActionComplete(before, i);
      FiledKept(changes, ActionKey(Actions(before[i])), EntryOf(before[i]));
    }
  }

  /** The last change, when not a no-op, is filed under its key. */
  lemma LastFiled(changes: seq<ResourceChange>)
    requires |changes| > 0 && !IsNoOp(Actions(changes[|changes| - 1]))
    ensures ActionKey(Actions(changes[|changes| - 1])) in ByAction(changes)
    ensures EntryOf(changes[|changes| - 1]) in ByAction(changes)[ActionKey(Actions(changes[|changes| - 1]))]
  {
    var last := changes[|changes| - 1];
    var key, e := ActionKey(Actions(last)), EntryOf(last);
    var before := ByAction(changes[..|changes| - 1]);
    assert ByAction(changes) == File(before, key, e);
    FiledNew(before, key, e);
  }

  /** What is filed before the last change stays filed after it. */
  lemma FiledKept(changes: seq<ResourceChange>, k: string, x: ChangeEntry)
    requires |changes| > 0
    requires var before := ByAction(changes[..|changes| - 1]); k in before && x in before[k]
    ensures k in ByAction(changes) && x in ByAction(changes)[k]
  {
    var last := changes[|changes| - 1];
    if !IsNoOp(Actions(last)) {
      FiledStays(ByAction(changes[..|changes| - 1]), ActionKey(Actions(last)), EntryOf(last), k, x);
    }
  }

  lemma FiledNew(groups: map<string, seq<ChangeEntry>>, key: string, e: ChangeEntry)
    ensures key in File(groups, key, e) && e in File(groups, key, e)[key]
  {
  }

  lemma FiledStays(groups: map<string, seq<ChangeEntry>>, key: string, e: ChangeEntry, k: string, x: ChangeEntry)
    requires k in groups && x in groups[k]
    ensures k in File(groups, key, e) && x in File(groups, key, e)[k]
  {
  }

  /** Nothing else is filed: each entry under a key comes from a change that is not a no-op and has that action key. */
  lemma {:induction false} ByActionSound(changes: seq<ResourceChange>, k: string, x: ChangeEntry) returns (i: nat)
    requires k in ByAction(changes) && x in ByAction(changes)[k]
    ensures i < |changes| && !IsNoOp(Actions(changes[i]))
    ensures ActionKey(Actions(changes[i])) == k && EntryOf(changes[i]) == x
    decreases |changes|
  {
    var n := |changes| - 1;
    var before := changes[..n];
    var last := changes[n];
    var groups := ByAction(before);
    if !IsNoOp(Actions(last)) && ActionKey(Actions(last)) == k && EntryOf(last) == x {
      i := n;
    } else {
      if !IsNoOp(Actions(last)) {
        var key := ActionKey(Actions(last));
        if k == key {
          assert ByAction(changes)[k] == (if k in groups then groups[k] else []) + [EntryOf(last)];
          assert x in (if k in groups then groups[k] else []);
        }
      }
      assert k in groups && x in groups[k];
      i := ByActionSound(before, k, x);
      assert before[i] == changes[i];
    }
  }
}
