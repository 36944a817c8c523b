/** The self-healing loop of `aqueduct run` (aqueduct/cli.py). Execution, agent, gates and stores
    are an oracle that fixes what happens in each iteration. */
module SelfHealing {
  import opened Common

  datatype Mode = Disabled | Human | Ci | Auto | Aggressive
  datatype Validation = FullRun | SandboxOnly
  datatype OnFailure = Stage | Discard | Abort

  datatype Config = Config(
    approvalMode: Mode,
    maxPatches: int,
    healCap: Option<int>,
    confidenceThreshold: real,
    deepLoop: bool,
    patchValidation: Validation,
    blockOnExplain: bool,
    onHealFailure: OnFailure)

  datatype Proposal = NoPatch | Patch(confidence: Option<real>, recovered: bool)

  /** The pre-staging guardrail check passes, raises PatchError, or fails in some other way. */
  datatype GuardrailCheck = Passes | Violates | Crashes

  datatype SandboxStatus = Pass | Fail | Skip

  /** The inline gates; they report nothing at all when the patch does not apply. */
  datatype Gates = Unapplied | Ran(sandbox: SandboxStatus, explainWarns: bool)

  datatype Iteration = Iteration(
    succeeds: bool,
    triggerAgent: bool,
    hasFailure: bool,
    agentUsable: bool,
    healAllowed: bool,
    recentHeals: int,
    proposal: Proposal,
    guardrail: GuardrailCheck,
    gates: Gates,
    recompiles: bool,
    rerunSucceeds: bool)

  datatype Outcome = Outcome(
    iterations: nat,
    agentCalls: nat,
    patchCount: nat,
    writes: seq<(nat, Mode)>,
    stagedForReview: bool,
    success: bool)

  // ----- what one iteration means -----

  /** The mode in force when the agent is asked. */
  function TriggerMode(cfg: Config, it: Iteration): Mode {
    if it.triggerAgent && cfg.approvalMode == Disabled then Human else cfg.approvalMode
  }

  /** The agent is called in this iteration. */
  predicate AsksAgent(cfg: Config, patchCount: int, it: Iteration) {
    && !it.succeeds
    && TriggerMode(cfg, it) != Disabled && it.hasFailure
    && it.agentUsable
    && patchCount < cfg.maxPatches
    && it.healAllowed
    && (cfg.healCap.Some? && cfg.healCap.value >= 0 ==> it.recentHeals < cfg.healCap.value)
  }

  predicate Confident(cfg: Config, p: Proposal)
    requires p.Patch?
  {
    p.confidence.Some? ==> p.confidence.value >= cfg.confidenceThreshold
  }

  /** A patch came back and no guardrail stops it. */
  predicate Clears(cfg: Config, patchCount: int, it: Iteration) {
    AsksAgent(cfg, patchCount, it) && it.proposal.Patch? && it.guardrail != Violates
  }

  /** Only then may the loop act on its own instead of handing over to a human. */
  predicate Autonomous(cfg: Config, it: Iteration)
    requires it.proposal.Patch?
  {
    && (cfg.approvalMode == Auto || cfg.approvalMode == Aggressive)
    && Confident(cfg, it.proposal) && !it.proposal.recovered
  }

  /** The gates whose verdict the mode in force looks at: with `deep_loop`, `auto` runs none. */
  function GatesSeen(cfg: Config, it: Iteration): Gates {
    if cfg.approvalMode == Auto && cfg.deepLoop then Unapplied else it.gates
  }

  predicate BlockedByGates(cfg: Config, it: Iteration) {
    var g := GatesSeen(cfg, it);
    g.Ran? && (g.sandbox == Fail || (cfg.approvalMode == Aggressive && cfg.blockOnExplain && g.explainWarns))
  }

  /** The sandbox verdict alone is enough to write. */
  predicate SandboxSuffices(cfg: Config, it: Iteration) {
    cfg.patchValidation == SandboxOnly && GatesSeen(cfg, it).Ran? && GatesSeen(cfg, it).sandbox == Pass
  }

  /** The Blueprint is written: an autonomous, unblocked patch that was proved by a re-run, or by
      the sandbox where that is allowed to suffice. */
  predicate Writes(cfg: Config, patchCount: int, it: Iteration) {
    && Clears(cfg, patchCount, it) && Autonomous(cfg, it) && !BlockedByGates(cfg, it)
    && (SandboxSuffices(cfg, it) || (it.recompiles && it.rerunSucceeds))
  }

  /** The loop goes round again: only in aggressive mode, after a patch that did not work out. */
  predicate Retries(cfg: Config, patchCount: int, it: Iteration) {
    && Clears(cfg, patchCount, it) && Autonomous(cfg, it) && cfg.approvalMode == Aggressive
    && (BlockedByGates(cfg, it)
        || (!SandboxSuffices(cfg, it) && it.recompiles && !it.rerunSucceeds && cfg.onHealFailure != Abort))
  }

  /** A patch is staged and reported as awaiting review. */
  predicate Reviews(cfg: Config, patchCount: int, it: Iteration) {
    Clears(cfg, patchCount, it) && !Autonomous(cfg, it)
  }

  // ----- these decisions, condition by condition -----

  /** The agent is asked about a failure of a run that may be healed, within the three limits on patches. */
  ghost predicate MayAsk(cfg: Config, patchCount: int, it: Iteration) {
    && !it.succeeds && it.hasFailure && it.agentUsable && it.healAllowed
    && (cfg.approvalMode != Disabled || it.triggerAgent)
    && patchCount < cfg.maxPatches
    && (match cfg.healCap case Some(cap) => cap < 0 || it.recentHeals < cap case None => true)
  }

  /** The sandbox and the plan check that the mode in force waits for. */
  ghost predicate GatesHold(cfg: Config, it: Iteration) {
    match it.gates
    case Unapplied => true
    case Ran(sandbox, warns) =>
      || (cfg.approvalMode == Auto && cfg.deepLoop)
      || (sandbox != Fail && !(cfg.approvalMode == Aggressive && cfg.blockOnExplain && warns))
  }

  ghost predicate SandboxPassed(cfg: Config, it: Iteration) {
    match it.gates
    case Unapplied => false
    case Ran(sandbox, _) => sandbox == Pass && !(cfg.approvalMode == Auto && cfg.deepLoop)
  }

  /** The patch was not repaired while parsing and is not below the confidence that is asked for. */
  ghost predicate Trusted(cfg: Config, p: Proposal) {
    p.Patch? && !p.recovered && match p.confidence case Some(c) => c >= cfg.confidenceThreshold case None => true
  }

  lemma AskMeans(cfg: Config, patchCount: int, it: Iteration)
    ensures AsksAgent(cfg, patchCount, it) <==> MayAsk(cfg, patchCount, it)
  {
  }

  /** The Blueprint is overwritten exactly by a trusted patch, in an autonomous mode, that breaks no guardrail,
      passes the gates and is proved by a new run, or by the sandbox alone where that is enough. */
  lemma WriteMeans(cfg: Config, patchCount: int, it: Iteration)
    ensures Writes(cfg, patchCount, it) <==>
            && MayAsk(cfg, patchCount, it) && (cfg.approvalMode == Auto || cfg.approvalMode == Aggressive)
            && Trusted(cfg, it.proposal) && it.guardrail != Violates && GatesHold(cfg, it)
            && (if cfg.patchValidation == SandboxOnly && SandboxPassed(cfg, it) then true
                else it.recompiles && it.rerunSucceeds)
  {
    hide MayAsk, AsksAgent;
    AskMeans(cfg, patchCount, it);
  }

  /** Another round is made exactly by a trusted patch in aggressive mode that a gate holds up, or that compiles and
      fails again where a failure does not abort. */
  lemma RetryMeans(cfg: Config, patchCount: int, it: Iteration)
    ensures Retries(cfg, patchCount, it) <==>
            && MayAsk(cfg, patchCount, it) && cfg.approvalMode == Aggressive
            && Trusted(cfg, it.proposal) && it.guardrail != Violates
            && (GatesHold(cfg, it) ==>
                  && !(cfg.patchValidation == SandboxOnly && SandboxPassed(cfg, it))
                  && it.recompiles && !it.rerunSucceeds && cfg.onHealFailure != Abort)
  {
    hide MayAsk, AsksAgent;
    AskMeans(cfg, patchCount, it);
  }

  /** A patch is left to a human exactly when no guardrail stops it and the mode is not autonomous or the patch is
      not trusted. */
  lemma ReviewMeans(cfg: Config, patchCount: int, it: Iteration)
    ensures Reviews(cfg, patchCount, it) <==>
            && MayAsk(cfg, patchCount, it) && it.proposal.Patch? && it.guardrail != Violates
            && (cfg.approvalMode in {Disabled, Human, Ci} || !Trusted(cfg, it.proposal))
  {
    hide MayAsk, AsksAgent;
    AskMeans(cfg, patchCount, it);
  }

  // ----- the loop -----

  method SelfHeal(cfg: Config, oracle: nat -> Iteration) returns (r: Outcome)
    ensures r.iterations > 0
    // the run is cut into iterations exactly by `Retries`
    ensures forall i :: 0 <= i < r.iterations - 1 ==> Retries(cfg, i, oracle(i))
    ensures !Retries(cfg, r.iterations - 1, oracle(r.iterations - 1))
    // only aggressive mode goes round: any other makes one agent call at the most, whatever `max_patches` says
    ensures cfg.approvalMode != Aggressive ==> r.iterations == 1
    // at most `max_patches` agent calls, one per iteration that asks
    ensures r.agentCalls ==
            r.iterations - 1 + (if AsksAgent(cfg, r.iterations - 1, oracle(r.iterations - 1)) then 1 else 0)
    ensures r.agentCalls <= if cfg.maxPatches < 0 then 0 else cfg.maxPatches
    ensures r.patchCount ==
            r.iterations - 1 + (if Clears(cfg, r.iterations - 1, oracle(r.iterations - 1)) then 1 else 0)
    // at most one write, in the last iteration, and exactly when it is justified
    ensures r.writes ==
            if Writes(cfg, r.iterations - 1, oracle(r.iterations - 1)) then [(r.iterations - 1, cfg.approvalMode)]
            else []
    ensures r.stagedForReview <==> Reviews(cfg, r.iterations - 1, oracle(r.iterations - 1))
    ensures r.success <==>
              var it := oracle(r.iterations - 1);
              it.succeeds || (Writes(cfg, r.iterations - 1, it) && !SandboxSuffices(cfg, it))
  {
    var patchCount, agentCalls, i := 0, 0, 0;
    var writes: seq<(nat, Mode)> := [];
    var staged, success := false, false;
    while true
      invariant i == patchCount == agentCalls && writes == [] && !staged
      invariant i <= if cfg.maxPatches < 0 then 0 else cfg.maxPatches
      invariant forall k :: 0 <= k < i ==> Retries(cfg, k, oracle(k))
      invariant i > 0 ==> cfg.approvalMode == Aggressive
      decreases cfg.maxPatches - patchCount
    {
      var it := oracle(i);
      i := i + 1;
      success := it.succeeds;
      if success {
        break;
      }
      var mode := cfg.approvalMode;
      if it.triggerAgent && mode == Disabled {
        mode := Human;
      }
      if mode == Disabled || !it.hasFailure {
        break;
      }
      if !it.agentUsable {
        break;
      }
      if patchCount >= cfg.maxPatches {
        break;
      }
      if !it.healAllowed {
        break;
      }
      if cfg.healCap.Some? && cfg.healCap.value >= 0 && it.recentHeals >= cfg.healCap.value {
        break;
      }
      agentCalls := agentCalls + 1;
      if it.proposal.NoPatch? {
        break;
      }
      var confidence := it.proposal.confidence;
      if confidence.Some? && confidence.value < cfg.confidenceThreshold && mode != Human && mode != Disabled {
        mode := Human;
      }
      if it.proposal.recovered && (mode == Auto || mode == Aggressive) {
        mode := Human;
      }
      if it.guardrail == Violates {
        break;
      }
      patchCount := patchCount + 1;
      if mode == Human || mode == Ci {
        staged := true;
        break;
      }
      if mode == Auto {
        var gates := if cfg.deepLoop then Unapplied else it.gates;
        if gates.Ran? && gates.sandbox == Fail {
          break;
        }
        if cfg.patchValidation == SandboxOnly && gates.Ran? && gates.sandbox == Pass {
          writes := writes + [(i - 1, Auto)];
          break;
        }
        if !it.recompiles {
          break;
        }
        success := it.rerunSucceeds;
        if success {
          writes := writes + [(i - 1, Auto)];
        }
        break;
      }
      // aggressive
      if cfg.blockOnExplain && it.gates.Ran? && it.gates.explainWarns {
        continue;
      }
      if it.gates.Ran? && it.gates.sandbox == Fail {
        continue;
      }
      if cfg.patchValidation == SandboxOnly && it.gates.Ran? && it.gates.sandbox == Pass {
        writes := writes + [(i - 1, Aggressive)];
        break;
      }
      if !it.recompiles {
        break;
      }
      success := it.rerunSucceeds;
      if success {
        writes := writes + [(i - 1, Aggressive)];
        break;
      }
      if cfg.onHealFailure == Abort {
        break;
      }
    }
    r := Outcome(i, agentCalls, patchCount, writes, staged, success);
  }
}
