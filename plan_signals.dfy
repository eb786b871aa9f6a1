/**
 * `extract_provider_info` and `extract_state_drift_signals`: the provider
 * configuration with the `access_key` expression removed, and the drift the
 * plan reports against the prior state.
 */
module PlanSignals {
  import opened Optional
  import opened PlanModel

  /** The one expression key that is never copied into the report. */
  const AccessKey: string := "access_key"

  datatype ProviderInfo = ProviderInfo(versionConstraint: string, expressions: map<string, Json>)

  datatype DriftItem = DriftItem(address: string, resourceType: string, changeType: seq<string>)

  datatype DriftSignals = DriftSignals(
    driftDetected: bool,
    driftCount: nat,
    driftItems: seq<DriftItem>,
    priorStateSerial: Option<int>,
    priorStateVersion: Option<string>)

  /* ---------- providers ---------- */

  /** `plan.get("configuration", {}).get("provider_config", {})` */
  function ProviderConfigs(plan: Plan): map<string, ProviderConfig>
  {
    match plan.configuration
    case None => map[]
    case Some(config) => config.providerConfig.GetOr(map[])
  }

  /** `{k: v for k, v in expressions.items() if k != "access_key"}` */
  function Redact(expressions: map<string, Json>): (r: map<string, Json>)
    ensures forall k :: k in r <==> k in expressions && k != AccessKey
    ensures forall k :: k in r ==> r[k] == expressions[k]
  {
    map k | k in expressions && k != AccessKey :: expressions[k]
  }

  /** One provider's entry: its version constraint (`""` when missing) and its redacted expressions. */
  function Describe(cfg: ProviderConfig): ProviderInfo
  {
    ProviderInfo(cfg.versionConstraint.GetOr(""), Redact(cfg.expressions.GetOr(map[])))
  }

  /** `extract_provider_info(plan)`: one entry per configured provider, filled in a loop over the names. */
  method ExtractProviderInfo(plan: Plan) returns (providers: map<string, ProviderInfo>)
    ensures providers.Keys == ProviderConfigs(plan).Keys
    ensures forall name :: name in providers ==> providers[name] == Describe(ProviderConfigs(plan)[name])
  {
    var configs := ProviderConfigs(plan);
    providers := map[];
    var rest := configs.Keys;
    while rest != {}
      invariant rest <= configs.Keys
      invariant providers.Keys == configs.Keys - rest
      invariant forall name :: name in providers ==> providers[name] == Describe(configs[name])
      decreases rest
    {
      var name :| name in rest;
      providers := providers[name := Describe(configs[name])];
      rest := rest - {name};
    }
  }

  /** Redaction removes `access_key` and nothing else, and keeps every value it does not remove. */
  lemma RedactOnlyAccessKey(expressions: map<string, Json>)
    ensures AccessKey !in Redact(expressions)
    ensures Redact(expressions).Keys == expressions.Keys - {AccessKey}
    ensures AccessKey !in expressions ==> Redact(expressions) == expressions
  {
  }

  /* ---------- drift ---------- */

  /** `plan.get("resource_drift", [])` */
  function Drifts(plan: Plan): seq<Drift>
  {
    plan.resourceDrift.GetOr([])
  }

  /** One drift entry of the report, `""` and `[]` for what is missing. */
  function ItemOf(d: Drift): DriftItem
  {
    DriftItem(d.address.GetOr(""), d.resourceType.GetOr(""), ActionsOf(d.change))
  }

  /** `extract_state_drift_signals(plan)` */
  method ExtractStateDriftSignals(plan: Plan) returns (r: DriftSignals)
    ensures |r.driftItems| == |Drifts(plan)|
    ensures forall i :: 0 <= i < |r.driftItems| ==> r.driftItems[i] == ItemOf(Drifts(plan)[i])
    ensures r.driftCount == |Drifts(plan)|
    ensures r.driftDetected <==> r.driftCount > 0
    ensures r.priorStateSerial == if plan.priorState.Some? then plan.priorState.value.serial else None
    ensures r.priorStateVersion == if plan.priorState.Some? then plan.priorState.value.terraformVersion else None
  {
    var drifts := Drifts(plan);
    var items: seq<DriftItem> := [];
    for i := 0 to |drifts|
      invariant |items| == i
      invariant forall j :: 0 <= j < i ==> items[j] == ItemOf(drifts[j])
    {
      items := items + [ItemOf(drifts[i])];
    }
    var serial, version := None, None;
    if plan.priorState.Some? {
      serial, version := plan.priorState.value.serial, plan.priorState.value.terraformVersion;
    }
    r := DriftSignals(|items| > 0, |items|, items, serial, version);
  }
}
