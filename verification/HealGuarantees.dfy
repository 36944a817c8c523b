/** What every heal call satisfies, whatever the provider, the callbacks and the clock do. */
module HealGuarantees {
  import opened Common
  import opened Budget
  import opened HealLoop

  // ----- termination with a reason, and what the reason says about the patch -----

  /** A run never takes more turns than `max_reprompts`, and its patch, its reason and the
      operations of the patch always agree. */
  lemma PatchMatchesReason(run: Run, r: AgentPatchResult)
    requires run.cfg.Valid() && run.Yields(r)
    ensures 1 <= r.attempts <= run.cfg.maxReprompts
    ensures r.stopReason.Some?
    ensures r.patch.Some? <==> r.stopReason.value == Solved || r.stopReason.value == Deferred
    ensures r.stopReason.value == Solved ==> !HasDefer(r.patch.value)
    ensures r.stopReason.value == Deferred ==>
              && run.settings.allowDefer
              && forall i :: 0 <= i < |r.patch.value.ops| ==> r.patch.value.ops[i] == DeferToHuman
  {
    hide Streak, Repeated, Run.Stuck;
    if r.attempts > 1 {
      PassedAt(run, r.attempts - 1, r.attempts - 2);
    }
    var last := run.Verdict(r.attempts - 1);
    if last.Deferring? {
      assert HasDefer(last.patch);
    }
  }

  /** The turns that reach the provider. */
  ghost function ProviderCalls(run: Run, n: nat): nat {
    if n == 0 then 0 else ProviderCalls(run, n - 1) + if run.Verdict(n - 1).OutOfTime? then 0 else 1
  }

  lemma {:induction false} RejectedCalls(run: Run, n: nat)
    requires run.Undecided(n)
    ensures ProviderCalls(run, n) == n
  {
    if n > 0 {
      RejectedCalls(run, n - 1);
    }
  }

  /** Every turn but possibly the last calls the provider exactly once. */
  lemma CallsMatchAttempts(run: Run, r: AgentPatchResult)
    requires run.cfg.Valid() && run.Yields(r)
    ensures ProviderCalls(run, r.attempts) == r.attempts - if run.Verdict(r.attempts - 1).OutOfTime? then 1 else 0
    ensures ProviderCalls(run, r.attempts) <= run.cfg.maxReprompts
  {
    RejectedCalls(run, r.attempts - 1);
    PatchMatchesReason(run, r);
  }

  /** The outcome is a function of the oracle. */
  lemma OutcomeIsUnique(run: Run, r1: AgentPatchResult, r2: AgentPatchResult)
    requires run.Yields(r1) && run.Yields(r2)
    ensures r1 == r2
  {
    hide Judge, Axis, Run.Rows, Run.Stuck;
    NoEarlyEnd(run, r1, r2);
    NoEarlyEnd(run, r2, r1);
  }

  lemma NoEarlyEnd(run: Run, r1: AgentPatchResult, r2: AgentPatchResult)
    requires run.Yields(r1) && run.Yields(r2)
    ensures r1.attempts >= r2.attempts
  {
    hide Judge, Axis;
    if r1.attempts < r2.attempts {
      PassedAt(run, r2.attempts - 1, r1.attempts - 1);
    }
  }

  // ----- the ledger -----

  lemma {:induction false} RejectedLedger(run: Run, n: nat)
    requires run.Undecided(n)
    ensures |Complaints(run.Rows(n))| == |Signatures(run.Rows(n))| == n
  {
    hide Judge, Axis, Run.EscalationDue;
    if n > 0 {
      RejectedLedger(run, n - 1);
      RowAt(run, n, n - 1);
    }
  }

  /** Rows are numbered from 1, one per turn, and only the last can lack a signature. */
  lemma LedgerRows(run: Run, r: AgentPatchResult, i: nat)
    requires run.Yields(r) && i < r.attempts
    ensures |r.records| == r.attempts && r.records[i].num == i + 1 && r.records[i].position == run.settings.position
    ensures i < r.attempts - 1 ==> r.records[i].signature.Some?
  {
    hide Judge, Axis, Run.EscalationDue, Complaints, HashOf, Run.Rows, Run.Undecided, Run.Sigs, Run.StuckBefore,
      TokensIn, TokensOut, Concludes;
    RowAt(run, r.attempts, i);
    if i < r.attempts - 1 {
      PassedAt(run, r.attempts - 1, i);
    }
  }

  /** There is one reprompt error per signature, and the token totals are the sums over the rows. */
  lemma LedgerConserved(run: Run, r: AgentPatchResult)
    requires run.Yields(r)
    ensures |r.repromptErrors| == |Signatures(r.records)|
    ensures r.tokensInTotal == TokensIn(r.records) && r.tokensOutTotal == TokensOut(r.records)
  {
    hide Judge, Axis, Run.EscalationDue, Run.Rows, Run.Sigs, Run.StuckBefore, HashOf, Concludes, TokensIn, TokensOut;
    RejectedLedger(run, r.attempts - 1);
    RowAt(run, r.attempts, r.attempts - 1);
  }

  /** The signatures of a run are those of its turns, minus a final success. */
  lemma RunSignatures(run: Run, r: AgentPatchResult)
    requires run.Yields(r)
    ensures Signatures(r.records) ==
            run.Sigs(if r.records[r.attempts - 1].signature.Some? then r.attempts else r.attempts - 1)
  {
    hide Judge, Axis, Run.EscalationDue, Complaints, Run.StuckBefore, Run.AxisAfter, TokensIn, TokensOut, Concludes;
    var n := r.attempts;
    LedgerSignatures(run, n - 1);
    RowAt(run, n, n - 1);
  }

  // ----- the signature axes -----

  lemma OccurrencesSnoc(sigs: seq<Hash>, g: Hash, h: Hash)
    ensures Occurrences(sigs + [g], h) == Occurrences(sigs, h) + if g == h then 1 else 0
  {
  }

  lemma BelowOverall(run: Run, n: nat, h: Hash)
    requires run.cfg.Valid() && run.Undecided(n)
    ensures Occurrences(run.Sigs(n), h) < run.cfg.sameSignatureOverall
  {
  }

  /** No signature is ever recorded more than `same_signature_overall` times. */
  lemma SignatureBound(run: Run, r: AgentPatchResult, h: Hash)
    requires run.cfg.Valid() && run.Yields(r)
    ensures Occurrences(Signatures(r.records), h) <= run.cfg.sameSignatureOverall
  {
    RunSignatures(run, r);
    BelowOverall(run, r.attempts - 1, h);
    OccurrencesSnoc(run.Sigs(r.attempts - 1), HashOf(run.Verdict(r.attempts - 1)), h);
  }

  function Drop(sigs: seq<Hash>, h: Hash): seq<Hash> {
    if sigs == [] then [] else
    var init, last := Drop(sigs[..|sigs| - 1], h), sigs[|sigs| - 1];
    if last == h then init else init + [last]
  }

  lemma {:induction false} DropCounts(sigs: seq<Hash>, h: Hash)
    ensures |Drop(sigs, h)| + Occurrences(sigs, h) == |sigs|
    ensures forall g :: Occurrences(Drop(sigs, h), g) == if g == h then 0 else Occurrences(sigs, g)
  {
    if sigs != [] {
      var init, last := sigs[..|sigs| - 1], sigs[|sigs| - 1];
      DropCounts(init, h);
      forall g {
        OccurrencesSnoc(Drop(init, h), last, g);
      }
    }
  }

  /** `kinds` covers the signatures and none occurs more than `m` times. */
  lemma {:induction false} Pigeonhole(sigs: seq<Hash>, kinds: set<Hash>, m: nat)
    requires forall h :: Occurrences(sigs, h) <= if h in kinds then m else 0
    ensures |sigs| <= |kinds| * m
    decreases |kinds|
  {
    hide Drop;
    if kinds == {} {
      StreakBound(sigs);
    } else {
      var h :| h in kinds;
      DropCounts(sigs, h);
      Pigeonhole(Drop(sigs, h), kinds - {h}, m);
      Distribute(|kinds - {h}|, m);
    }
  }

  lemma Distribute(k: nat, m: nat)
    ensures (k + 1) * m == k * m + m
  {
  }

  /** A run that has seen `d` different signatures has failed at most d*(S-1)+1 times. */
  lemma FailuresBound(run: Run, r: AgentPatchResult)
    requires run.cfg.Valid() && run.Yields(r)
    ensures var sigs := Signatures(r.records);
            |sigs| <= |Elems(sigs)| * (run.cfg.sameSignatureOverall - 1) + 1
  {
    hide Judge, Axis, Run.Stuck;
    RunSignatures(run, r);
    var earlier, sigs := run.Sigs(r.attempts - 1), Signatures(r.records);
    AbsentOccurs(earlier);
    assert forall h :: h in earlier ==> h in Elems(sigs);
    forall h ensures Occurrences(earlier, h) <= if h in Elems(sigs) then run.cfg.sameSignatureOverall - 1 else 0 {
      BelowOverall(run, r.attempts - 1, h);
    }
    Pigeonhole(earlier, Elems(sigs), run.cfg.sameSignatureOverall - 1);
  }

  // ----- progress_stalled: when it can be reported at all -----

  lemma StreakGrowsByOne(run: Run, n: nat)
    ensures Streak(run.Sigs(n + 1)) <= Streak(run.Sigs(n)) + 1
  {
  }

  /** The configurations whose `progress_stalled` axis is alive. */
  predicate CanStall(cfg: BudgetConfig) {
    && cfg.progressStalledWindow < cfg.sameSignatureOverall
    && cfg.progressStalledWindow <= cfg.sameErrorConsecutive + 1
    && cfg.progressStalledWindow < cfg.maxReprompts
  }

  /** A streak longer than the consecutive limit plus one cannot build up: the run was already
      escalated when the limit was passed for the second time. */
  lemma LongStreakStops(run: Run, n: nat)
    requires run.cfg.Valid() && n >= 1 && run.Undecided(n - 1)
    ensures Streak(run.Sigs(n)) <= run.cfg.sameErrorConsecutive + 1
  {
    hide Judge, Occurrences, Repeated, HashOf, Streak, Run.Sigs;
    if n >= 2 {
      StreakGrowsByOne(run, n - 1);
      StreakGrowsByOne(run, n - 2);
      assert run.Passed(n - 2);
    }
    StreakBound(run.Sigs(n));
  }

  /** Only such a configuration ever reports it: otherwise another axis always trips first. */
  lemma StallNeeds(run: Run, r: AgentPatchResult)
    requires run.cfg.Valid() && run.Yields(r) && r.stopReason == Some(ProgressStalled)
    ensures CanStall(run.cfg)
  {
    hide Judge, Occurrences, Repeated, HashOf, Streak, Run.Sigs, Run.Rows, Run.StuckBefore, Run.Undecided, Complaints,
      TokensIn, TokensOut;
    assert run.AxisAfter(r.attempts) == Some(ProgressStalled);
    StreakBound(run.Sigs(r.attempts));
    RepeatedMeans(run.Sigs(r.attempts), run.cfg.sameSignatureOverall);
    LongStreakStops(run, r.attempts);
  }

  /** The provider that repeats one malformed answer for free and in no time. */
  function Parrot(): Turn {
    Turn(0.0, Replied(0, 0, Malformed("h")), Accepts, Accepts, 0.0)
  }

  ghost predicate Parroting(run: Run) {
    run.cfg.Valid() && run.settings.timeout > 0.0 && forall i: nat :: run.oracle(i) == Parrot()
  }

  lemma ParrotTurn(run: Run, n: nat)
    requires Parroting(run)
    ensures run.Verdict(n) == Rejected(SchemaGate, "h", 0, 0)
  {
  }

  lemma {:induction false} ParrotTokens(run: Run, n: nat)
    requires Parroting(run)
    ensures TokensIn(run.Rows(n)) == 0 && TokensOut(run.Rows(n)) == 0
  {
    hide Judge, Run.EscalationDue;
    if n > 0 {
      ParrotTokens(run, n - 1);
      ParrotTurn(run, n - 1);
      assert run.Rows(n)[..n - 1] == run.Rows(n - 1);
    }
  }

  lemma {:induction false} ParrotSigs(run: Run, n: nat)
    requires Parroting(run)
    ensures Streak(run.Sigs(n)) == n && forall h :: Occurrences(run.Sigs(n), h) <= n
    ensures n > 0 ==> run.Sigs(n)[n - 1] == "h"
  {
    hide Judge;
    if n > 0 {
      ParrotSigs(run, n - 1);
      ParrotTurn(run, n - 1);
      assert run.Sigs(n)[..n - 1] == run.Sigs(n - 1);
      assert n > 1 ==> run.Sigs(n)[n - 2] == run.Sigs(n - 1)[n - 2];
    }
  }

  lemma {:induction false} ParrotStuck(run: Run, n: nat)
    requires Parroting(run)
    ensures run.StuckBefore(n) <==> n > run.cfg.sameErrorConsecutive
  {
    hide Judge, Run.Sigs, Streak;
    if n > 0 {
      ParrotStuck(run, n - 1);
      ParrotSigs(run, n - 1);
    }
  }

  lemma ParrotAxis(run: Run, n: nat)
    requires Parroting(run) && CanStall(run.cfg) && 0 < n <= run.cfg.progressStalledWindow
    ensures run.Verdict(n - 1).Rejected?
    ensures run.AxisAfter(n) == if n < run.cfg.progressStalledWindow then None else Some(ProgressStalled)
  {
    hide Judge, Run.Sigs, Run.Rows, Streak, Occurrences, Repeated, Run.StuckBefore;
    ParrotTurn(run, n - 1);
    ParrotTokens(run, n);
    ParrotSigs(run, n);
    ParrotStuck(run, n);
    RepeatedMeans(run.Sigs(n), run.cfg.sameSignatureOverall);
    assert run.oracle(n - 1) == Parrot();
  }

  /** And every such configuration does report it, against a provider that parrots. */
  lemma StallHappens(run: Run, r: AgentPatchResult)
    requires Parroting(run) && CanStall(run.cfg) && run.Yields(r)
    ensures r.stopReason == Some(ProgressStalled) && r.attempts == run.cfg.progressStalledWindow
  {
    hide Judge, Axis, Run.Stuck;
    var w: nat := run.cfg.progressStalledWindow;
    ParrotAxis(run, w);
    if r.attempts > w {
      PassedAt(run, r.attempts - 1, w - 1);
    } else {
      ParrotAxis(run, r.attempts);
    }
  }

  /** Such a run, as the loop itself produces it. */
  method ParrotStalls(cfg: BudgetConfig) returns (r: AgentPatchResult)
    requires cfg.Valid() && CanStall(cfg)
    ensures r.stopReason == Some(ProgressStalled) && r.attempts == cfg.progressStalledWindow && r.patch.None?
  {
    hide Run.Yields, Conversation, BudgetConfig.Valid, CanStall;
    var settings := Settings(60.0, false, false, false, false, "", None);
    var oracle: Oracle := (i: nat) => Parrot();
    var result, _ := GenerateAgentPatch(cfg, settings, oracle);
    ghost var run := Run(cfg, settings, oracle);
    StallHappens(run, result);
    PatchMatchesReason(run, result);
    return result;
  }

  /** The shipped default can never report it. */
  lemma DefaultNeverStalls(run: Run, r: AgentPatchResult)
    requires run.cfg == DEFAULT_BUDGET && run.Yields(r)
    ensures r.stopReason != Some(ProgressStalled)
  {
    if r.stopReason == Some(ProgressStalled) {
      StallNeeds(run, r);
    }
  }

  // ----- escalation -----

  lemma {:induction false} StuckStays(run: Run, i: nat, j: nat)
    requires run.Stuck(i) && i < j
    ensures run.StuckBefore(j)
    decreases j
  {
    hide Run.Stuck;
    if i < j - 1 {
      StuckStays(run, i, j - 1);
    }
  }

  /** At most one turn runs escalated. */
  lemma EscalatedOnce(run: Run, r: AgentPatchResult, i: nat, j: nat)
    requires run.Yields(r) && i < |r.records| && j < |r.records|
    requires r.records[i].escalated && r.records[j].escalated
    ensures i == j
  {
    hide Run.Stuck, Judge, Axis, Complaints, TokensIn, TokensOut, Run.Undecided, Run.AxisAfter, Concludes,
      Run.StuckBefore, Run.Sigs;
    RowAt(run, r.attempts, i);
    RowAt(run, r.attempts, j);
    if i < j {
      StuckStays(run, i, j);
    } else if j < i {
      StuckStays(run, j, i);
    }
  }

  lemma {:induction false} FirstStuck(run: Run, n: nat) returns (i: nat)
    requires run.StuckBefore(n)
    ensures i < n && run.EscalationDue(i)
  {
    hide Run.Stuck;
    if run.StuckBefore(n - 1) {
      i := FirstStuck(run, n - 1);
    } else {
      i := n - 1;
    }
  }

  /** A run is marked escalated exactly when one of its turns ran escalated. */
  lemma EscalatedIff(run: Run, r: AgentPatchResult)
    requires run.cfg.Valid() && run.Yields(r)
    ensures r.escalated <==> exists i :: 0 <= i < |r.records| && r.records[i].escalated
  {
    hide Run.Stuck, Run.Rows, Run.Sigs, Run.Undecided, Run.StuckBefore, Judge, Axis, Run.EscalationDue, HashOf,
      Complaints, Concludes;
    hide TokensIn, TokensOut;
    if r.escalated {
      var i := FirstStuck(run, r.attempts);
      RowAt(run, r.attempts, i);
      assert r.records[i].escalated;
    }
    forall i: nat | i < |r.records| && r.records[i].escalated ensures r.escalated {
      EscalatedMeansStuck(run, r, i);
    }
  }

  lemma EscalatedMeansStuck(run: Run, r: AgentPatchResult, i: nat)
    requires run.Yields(r) && i < |r.records| && r.records[i].escalated
    ensures r.escalated && run.EscalationDue(i)
  {
    hide Run.Stuck, Run.Rows, Run.Sigs, Run.Undecided, Judge, Axis, HashOf, Complaints, Concludes, TokensIn, TokensOut;
    RowAt(run, r.attempts, i);
    StuckStays(run, i, r.attempts);
  }

  /** The budgets under which a turn can run escalated. */
  predicate CanEscalate(cfg: BudgetConfig) {
    && cfg.sameErrorConsecutive < cfg.sameSignatureOverall
    && cfg.sameErrorConsecutive < cfg.progressStalledWindow
    && cfg.sameErrorConsecutive < cfg.maxReprompts
  }

  /** An escalated turn directly follows `same_error_consecutive` equal signatures, and that
      number is below the two other signature limits and the number of reprompts. */
  lemma EscalationJustified(run: Run, r: AgentPatchResult, i: nat)
    requires run.cfg.Valid() && run.Yields(r) && i < |r.records| && r.records[i].escalated
    ensures run.cfg.sameErrorConsecutive <= i
    ensures forall k :: i - run.cfg.sameErrorConsecutive <= k < i ==>
              r.records[k].signature.Some? && r.records[k].signature == r.records[i - 1].signature
    ensures CanEscalate(run.cfg)
  {
    hide Judge, Streak, Occurrences, Repeated, HasDefer, Complaints, TokensIn, TokensOut, Concludes;
    var c := run.cfg.sameErrorConsecutive;
    PatchMatchesReason(run, r);
    RowAt(run, r.attempts, i);
    StreakBound(run.Sigs(i));
    PassedAt(run, r.attempts - 1, i - 1);
    RepeatedMeans(run.Sigs(i), run.cfg.sameSignatureOverall);
    forall k: nat | i - c <= k < i
      ensures r.records[k].signature.Some? && r.records[k].signature == r.records[i - 1].signature
    {
      StreakSignature(run, r, i, k);
      StreakSignature(run, r, i, i - 1);
    }
  }

  lemma StreakSignature(run: Run, r: AgentPatchResult, i: nat, k: nat)
    requires run.cfg.Valid() && run.Yields(r) && i < |r.records| && run.Stuck(i) && run.cfg.sameErrorConsecutive <= i
    requires i - run.cfg.sameErrorConsecutive <= k < i
    ensures r.records[k].signature == Some(run.Sigs(i)[i - run.cfg.sameErrorConsecutive])
  {
    hide Judge, Streak, Axis, HashOf, RecordOf, Complaints, TokensIn, TokensOut, Concludes, Occurrences, Repeated,
      Run.Row, Run.Rows, Run.Sigs, Run.StuckBefore, Run.EscalationDue, Run.AxisAfter, Run.Undecided;
    var c := run.cfg.sameErrorConsecutive;
    RowAt(run, r.attempts, k);
    RowAt(run, i, k);
    PassedAt(run, r.attempts - 1, k);
    var sigs := run.Sigs(i);
    var tail := sigs[|sigs| - c..];
    TailsAgree(sigs, c);
    var j := k - (i - c);
    assert 0 <= j < |tail| && tail[j] == sigs[k];
    assert tail[j] == tail[0] == sigs[i - c];
    RejectedRow(run, k);
  }

  lemma {:induction false} ParrotPasses(run: Run, n: nat)
    requires Parroting(run) && CanEscalate(run.cfg) && n <= run.cfg.sameErrorConsecutive
    ensures run.Undecided(n)
  {
    hide Judge, Run.Sigs, Run.Rows, Streak, Occurrences, Repeated, Run.StuckBefore;
    if n > 0 {
      ParrotPasses(run, n - 1);
      ParrotTurn(run, n - 1);
      ParrotTokens(run, n);
      ParrotSigs(run, n);
      ParrotStuck(run, n);
      RepeatedMeans(run.Sigs(n), run.cfg.sameSignatureOverall);
      assert run.oracle(n - 1) == Parrot();
    }
  }

  /** And under every such budget a turn does run escalated, against a provider that parrots. */
  lemma EscalationHappens(run: Run, r: AgentPatchResult)
    requires Parroting(run) && CanEscalate(run.cfg) && run.Yields(r)
    ensures r.escalated && r.attempts > run.cfg.sameErrorConsecutive
    ensures r.records[run.cfg.sameErrorConsecutive].escalated
  {
    hide Judge, Axis, Streak, Run.StuckBefore, Run.Sigs, Run.Rows, Complaints, TokensIn, TokensOut, Concludes,
      Run.Undecided, HashOf;
    var c: nat := run.cfg.sameErrorConsecutive;
    ParrotPasses(run, c);
    if r.attempts <= c {
      PassedAt(run, c, r.attempts - 1);
    }
    ParrotSigs(run, c);
    ParrotStuck(run, c);
    RowAt(run, r.attempts, c);
    EscalatedMeansStuck(run, r, c);
  }

  /** Such a run, as the loop itself produces it. */
  method ParrotEscalates(cfg: BudgetConfig) returns (r: AgentPatchResult)
    requires cfg.Valid() && CanEscalate(cfg)
    ensures r.escalated && cfg.sameErrorConsecutive < |r.records| && r.records[cfg.sameErrorConsecutive].escalated
  {
    hide Run.Yields, Conversation, BudgetConfig.Valid, CanEscalate;
    var settings := Settings(60.0, false, false, false, false, "", None);
    var oracle: Oracle := (i: nat) => Parrot();
    var result, _ := GenerateAgentPatch(cfg, settings, oracle);
    ghost var run := Run(cfg, settings, oracle);
    EscalationHappens(run, result);
    PatchMatchesReason(run, result);
    LedgerRows(run, result, 0);
    return result;
  }
}
