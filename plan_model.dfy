/**
 * The parts of Terraform's plan JSON (`terraform show -json`) that the plan
 * analyser reads. A key that may be missing is an `Option`; a JSON null is
 * modelled as a missing key. Values the analyser only copies are `Json`.
 */
module PlanModel {
  import opened Optional

  /** A JSON value that is passed through unread. */
  datatype Json =
    | JNull
    | JBool(b: bool)
    | JNumber(n: int)
    | JString(s: string)
    | JArray(items: seq<Json>)
    | JObject(fields: map<string, Json>)

  /** `"change": {"actions": [...]}` */
  datatype Change = Change(actions: Option<seq<string>>)

  /** An entry of `resource_changes`. */
  datatype ResourceChange = ResourceChange(
    address: Option<string>,
    resourceType: Option<string>,
    moduleAddress: Option<string>,
    change: Option<Change>)

  /** An entry of `planned_values.root_module.resources`. */
  datatype PlannedResource = PlannedResource(
    address: Option<string>,
    resourceType: Option<string>,
    moduleAddress: Option<string>)

  datatype RootModule = RootModule(resources: Option<seq<PlannedResource>>)

  datatype PlannedValues = PlannedValues(rootModule: Option<RootModule>)

  /** An entry of `configuration.provider_config`. */
  datatype ProviderConfig = ProviderConfig(
    versionConstraint: Option<string>,
    expressions: Option<map<string, Json>>)

  datatype Configuration = Configuration(providerConfig: Option<map<string, ProviderConfig>>)

  datatype PriorState = PriorState(serial: Option<int>, terraformVersion: Option<string>)

  /** An entry of `resource_drift`. */
  datatype Drift = Drift(address: Option<string>, resourceType: Option<string>, change: Option<Change>)

  datatype Plan = Plan(
    resourceChanges: Option<seq<ResourceChange>>,
    plannedValues: Option<PlannedValues>,
    configuration: Option<Configuration>,
    priorState: Option<PriorState>,
    resourceDrift: Option<seq<Drift>>)

  /** `x.get("change", {}).get("actions", [])` */
  function ActionsOf(change: Option<Change>): seq<string>
  {
    match change
    case None => []
    case Some(c) => c.actions.GetOr([])
  }

  /** `plan.get("planned_values", {}).get("root_module", {}).get("resources", [])` */
  function PlannedResources(plan: Plan): seq<PlannedResource>
  {
    match plan.plannedValues
    case None => []
    case Some(pv) =>
      match pv.rootModule
      case None => []
      case Some(root) => root.resources.GetOr([])
  }

  /** The pseudo-change made for a planned resource: its fields, `""` when missing, and one `create`. */
  function AsCreate(r: PlannedResource): ResourceChange
  {
    ResourceChange(
      Some(r.address.GetOr("")),
      Some(r.resourceType.GetOr("")),
      Some(r.moduleAddress.GetOr("")),
      Some(Change(Some(["create"]))))
  }

  /** `not changes`: missing, null or the empty list. */
  predicate UsesFallback(plan: Plan)
  {
    plan.resourceChanges.None? || plan.resourceChanges.value == []
  }

  /** `extract_resource_changes(plan)` */
  function ExtractResourceChanges(plan: Plan): (r: seq<ResourceChange>)
    ensures !UsesFallback(plan) ==> r == plan.resourceChanges.value
    ensures UsesFallback(plan) ==> |r| == |PlannedResources(plan)|
    ensures UsesFallback(plan) ==> forall i :: 0 <= i < |r| ==>
              ActionsOf(r[i].change) == ["create"]
              && r[i].address == Some(PlannedResources(plan)[i].address.GetOr(""))
              && r[i].resourceType == Some(PlannedResources(plan)[i].resourceType.GetOr(""))
              && r[i].moduleAddress == Some(PlannedResources(plan)[i].moduleAddress.GetOr(""))
  {
    if !UsesFallback(plan) then plan.resourceChanges.value
    else
      var resources := PlannedResources(plan);
      seq(|resources|, i requires 0 <= i < |resources| => AsCreate(resources[i]))
  }
}
