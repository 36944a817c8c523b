/** The multi-model cascade (aqueduct/agent/cascade.py). */
module Cascade {
  import opened Common
  import opened Budget
  import opened HealLoop
  import opened HealGuarantees

  /** Per-tier overrides; None inherits the shared default. */
  datatype Tier = Tier(
    maxReprompts: Option<int>,
    maxSeconds: Option<real>,
    timeout: Option<real>,
    allowDefer: Option<bool>,
    deepLoop: Option<bool>)

  /** Defaults and callbacks shared by all tiers. */
  datatype Shared = Shared(timeout: real, maxReprompts: int, hasValidate: bool, hasApply: bool, deferHash: Hash)

  function OrElse<T>(o: Option<T>, default: T): T {
    match o case Some(v) => v case None => default
  }

  function TierBudget(t: Tier, d: Shared): BudgetConfig {
    DEFAULT_BUDGET.(maxReprompts := OrElse(t.maxReprompts, d.maxReprompts), maxSeconds := OrElse(t.maxSeconds, 120.0))
  }

  function TierSettings(t: Tier, d: Shared, index: nat): Settings {
    Settings(OrElse(t.timeout, d.timeout), OrElse(t.allowDefer, false), OrElse(t.deepLoop, false),
             d.hasValidate, d.hasApply, d.deferHash, Some(index))
  }

  /** What tier `i` does is again an oracle. */
  ghost function TierRun(tiers: seq<Tier>, d: Shared, oracles: nat -> Oracle, i: nat): Run
    requires i < |tiers|
  {
    Run(TierBudget(tiers[i], d), TierSettings(tiers[i], d, i), oracles(i))
  }

  /** A tier overrides what it names and inherits the rest: the shared ceiling and timeout, two minutes, no deferral
      and no validation in the conversation. The signature limits are those of the default budget. */
  lemma TierMeans(t: Tier, d: Shared, index: nat)
    ensures var b := TierBudget(t, d);
            && (match t.maxReprompts case Some(n) => b.maxReprompts == n case None => b.maxReprompts == d.maxReprompts)
            && (match t.maxSeconds case Some(x) => b.maxSeconds == x case None => b.maxSeconds == 120.0)
            && b.maxTokensTotal == Some(50000) && b.sameErrorConsecutive == 2 && b.sameSignatureOverall == 3
            && b.progressStalledWindow == 3
            && (b.Valid() <==> b.maxReprompts >= 1 && b.maxSeconds > 0.0)
    ensures var s := TierSettings(t, d, index);
            && (match t.timeout case Some(x) => s.timeout == x case None => s.timeout == d.timeout)
            && (s.allowDefer <==> t.allowDefer == Some(true)) && (s.deepLoop <==> t.deepLoop == Some(true))
            && s.hasValidate == d.hasValidate && s.hasApply == d.hasApply && s.deferHash == d.deferHash
            && s.position == Some(index)
  {
  }

  predicate Escalates(r: AgentPatchResult) {
    r.patch.None? && r.stopReason in {Some(StuckSignature), Some(ExhaustedAttempts), Some(Deferred)}
  }

  /** The tiers that ran, in order. */
  ghost predicate Ran(tiers: seq<Tier>, d: Shared, oracles: nat -> Oracle, results: seq<AgentPatchResult>) {
    |results| <= |tiers| && forall i :: 0 <= i < |results| ==> TierRun(tiers, d, oracles, i).Yields(results[i])
  }

  /** The only error is a tier whose budget `BudgetConfig` refuses: `Err` carries its index. */
  method GenerateCascadePatch(tiers: seq<Tier>, d: Shared, oracles: nat -> Oracle)
    returns (r: Result<Option<AgentPatchResult>, nat>, ghost results: seq<AgentPatchResult>)
    ensures Ran(tiers, d, oracles, results)
    // tier k+1 runs only if tiers 1..k all escalated
    ensures forall i :: 0 <= i < |results| - 1 ==> Escalates(results[i])
    // the answer is that of the last tier run, and the cascade stops there for a reason
    ensures r.Ok? ==> r.value == if results == [] then None else Some(results[|results| - 1])
    ensures r.Ok? && |results| < |tiers| ==> results != [] && !Escalates(results[|results| - 1])
    ensures r.Ok? ==> (r.value.None? <==> tiers == [])
    ensures r.Err? ==> r.error == |results| < |tiers| && !TierBudget(tiers[r.error], d).Valid()
    ensures r.Err? ==> forall i :: 0 <= i < |results| ==> Escalates(results[i])
  {
    hide Run.Yields, TierBudget, TierSettings, BudgetConfig.Valid, Conversation;
    results := [];
    var result: Option<AgentPatchResult> := None;
    for i := 0 to |tiers|
      invariant i == |results| && Ran(tiers, d, oracles, results)
      invariant forall k :: 0 <= k < i ==> Escalates(results[k])
      invariant result == if i == 0 then None else Some(results[i - 1])
    {
      var budget := TierBudget(tiers[i], d);
      if !budget.Valid() {
        return Err(i), results;
      }
      var tier, _ := GenerateAgentPatch(budget, TierSettings(tiers[i], d, i), oracles(i));
      results, result := results + [tier], Some(tier);
      if tier.patch.Some? {
        return Ok(result), results;
      }
      if tier.stopReason !in {Some(StuckSignature), Some(ExhaustedAttempts), Some(Deferred)} {
        return Ok(result), results;
      }
    }
    return Ok(result), results;
  }

  /** The documented escalation on `deferred` never happens: a deferred result carries its patch,
      so the cascade returns it. Tiers escalate on the other two reasons only. */
  lemma EscalationReasons(run: Run, r: AgentPatchResult)
    requires run.cfg.Valid() && run.Yields(r)
    ensures Escalates(r) <==> r.stopReason == Some(StuckSignature) || r.stopReason == Some(ExhaustedAttempts)
  {
    hide *;
    PatchMatchesReason(run, r);
    EscalatesMeans(r);
  }

  lemma EscalatesMeans(r: AgentPatchResult)
    ensures Escalates(r) <==>
            r.patch.None? && r.stopReason in {Some(StuckSignature), Some(ExhaustedAttempts), Some(Deferred)}
  {
  }

  ghost function TotalCalls(tiers: seq<Tier>, d: Shared, oracles: nat -> Oracle, results: seq<AgentPatchResult>): nat
    requires |results| <= |tiers|
  {
    if results == [] then 0 else
    var k := |results| - 1;
    TotalCalls(tiers, d, oracles, results[..k]) + ProviderCalls(TierRun(tiers, d, oracles, k), results[k].attempts)
  }

  function Ceilings(tiers: seq<Tier>, d: Shared): int {
    if tiers == [] then 0 else
    Ceilings(tiers[..|tiers| - 1], d) + TierBudget(tiers[|tiers| - 1], d).maxReprompts
  }

  /** Provider calls are bounded by the ceilings of the tiers that ran. */
  lemma {:induction false} CascadeCallsBounded(tiers: seq<Tier>, d: Shared,
                                               oracles: nat -> Oracle, results: seq<AgentPatchResult>)
    requires Ran(tiers, d, oracles, results)
    requires forall i :: 0 <= i < |results| ==> TierBudget(tiers[i], d).Valid()
    ensures TotalCalls(tiers, d, oracles, results) <= Ceilings(tiers[..|results|], d)
  {
    hide Run.Yields, TierBudget, TierSettings, BudgetConfig.Valid;
    if results != [] {
      var k := |results| - 1;
      CascadeCallsBounded(tiers, d, oracles, results[..k]);
      CallsMatchAttempts(TierRun(tiers, d, oracles, k), results[k]);
      assert tiers[..k + 1][..k] == tiers[..k];
    }
  }
}
