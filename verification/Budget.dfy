/** The multi-axis budget of a heal call (aqueduct/agent/budget.py). */
module Budget {
  import opened Common

  /** An error signature is compared by its hash only. */
  type Hash = string

  datatype StopReason =
    | Solved | ExhaustedAttempts | BudgetSecondsExceeded | BudgetTokensExceeded
    | StuckSignature | ProgressStalled | ApiError | Deferred

  datatype Gate = BudgetGate | ProviderGate | SchemaGate | DeferGate | ValidateGate | ApplyGate

  datatype BudgetConfig = BudgetConfig(
    maxReprompts: int,
    maxSeconds: real,
    maxTokensTotal: Option<int>,
    sameErrorConsecutive: int,
    sameSignatureOverall: int,
    progressStalledWindow: int)
  {
    /** `__post_init__` raises nothing. */
    predicate Valid() {
      && maxReprompts >= 1 && maxSeconds > 0.0
      && (maxTokensTotal.Some? ==> maxTokensTotal.value >= 1)
      && sameErrorConsecutive >= 2
      && sameSignatureOverall >= sameErrorConsecutive
      && progressStalledWindow >= 2
    }
  }

  const DEFAULT_BUDGET := BudgetConfig(5, 120.0, Some(50000), 2, 3, 3)

  datatype AttemptRecord = AttemptRecord(
    num: nat,
    signature: Option<Hash>,
    tokensIn: int,
    tokensOut: int,
    gate: Option<Gate>,
    escalated: bool,
    position: Option<nat>)

  // ----- the signatures of a run, and what the axes ask about them -----

  function Signatures(attempts: seq<AttemptRecord>): seq<Hash> {
    if attempts == [] then [] else
    var init, last := Signatures(attempts[..|attempts| - 1]), attempts[|attempts| - 1];
    if last.signature.Some? then init + [last.signature.value] else init
  }

  function TokensIn(attempts: seq<AttemptRecord>): int {
    if attempts == [] then 0 else TokensIn(attempts[..|attempts| - 1]) + attempts[|attempts| - 1].tokensIn
  }

  function TokensOut(attempts: seq<AttemptRecord>): int {
    if attempts == [] then 0 else TokensOut(attempts[..|attempts| - 1]) + attempts[|attempts| - 1].tokensOut
  }

  function Occurrences(sigs: seq<Hash>, h: Hash): nat {
    if sigs == [] then 0 else
    Occurrences(sigs[..|sigs| - 1], h) + if sigs[|sigs| - 1] == h then 1 else 0
  }

  /** How many times the newest signature has just been seen in a row. */
  function Streak(sigs: seq<Hash>): nat {
    var n := |sigs|;
    if n == 0 then 0
    else if n >= 2 && sigs[n - 2] == sigs[n - 1] then Streak(sigs[..n - 1]) + 1
    else 1
  }

  /** Some signature has occurred `n` times. */
  predicate Repeated(sigs: seq<Hash>, n: int) {
    sigs != [] && (Occurrences(sigs, sigs[|sigs| - 1]) >= n || Repeated(sigs[..|sigs| - 1], n))
  }

  function Axis(cfg: BudgetConfig, sigs: seq<Hash>, attempt: int, elapsed: real, tokens: int, escalatedOnce: bool)
    : Option<StopReason>
  {
    if attempt >= cfg.maxReprompts then Some(ExhaustedAttempts)
    else if elapsed >= cfg.maxSeconds then Some(BudgetSecondsExceeded)
    else if cfg.maxTokensTotal.Some? && tokens >= cfg.maxTokensTotal.value then Some(BudgetTokensExceeded)
    else if Repeated(sigs, cfg.sameSignatureOverall) then Some(StuckSignature)
    else if Streak(sigs) >= cfg.progressStalledWindow then Some(ProgressStalled)
    else if Streak(sigs) >= cfg.sameErrorConsecutive && escalatedOnce then Some(StuckSignature)
    else None
  }

  class BudgetTracker {
    const config: BudgetConfig
    var attempts: seq<AttemptRecord>
    var tokensInTotal: int
    var tokensOutTotal: int
    var escalatedOnce: bool
    var currentAttempt: nat
    var stopReason: Option<StopReason>

    /** Conservation: the totals are the sums over the recorded attempts. */
    ghost predicate Balanced() reads this {
      tokensInTotal == TokensIn(attempts) && tokensOutTotal == TokensOut(attempts)
    }

    constructor (config: BudgetConfig)
      ensures this.config == config && Balanced()
      ensures attempts == [] && !escalatedOnce && currentAttempt == 0 && stopReason == None
    {
      this.config := config;
      attempts, tokensInTotal, tokensOutTotal := [], 0, 0;
      escalatedOnce, currentAttempt, stopReason := false, 0, None;
    }

    method BeginAttempt() returns (n: nat)
      modifies this`currentAttempt
      ensures n == currentAttempt == old(currentAttempt) + 1
    {
      currentAttempt := currentAttempt + 1;
      return currentAttempt;
    }

    method Record(signature: Option<Hash>, tokensIn: int, tokensOut: int, gate: Option<Gate>, escalated: bool,
                  position: Option<nat>)
      requires Balanced()
      modifies this`attempts, this`tokensInTotal, this`tokensOutTotal
      ensures Balanced()
      ensures attempts == old(attempts) +
                [AttemptRecord(currentAttempt, signature, tokensIn, tokensOut, gate, escalated, position)]
    {
      attempts := attempts + [AttemptRecord(currentAttempt, signature, tokensIn, tokensOut, gate, escalated, position)];
      tokensInTotal := tokensInTotal + tokensIn;
      tokensOutTotal := tokensOutTotal + tokensOut;
    }

    /** `elapsed` is the monotonic clock since construction. */
    method CheckStop(elapsed: real) returns (r: Option<StopReason>)
      requires config.Valid() && Balanced()
      modifies this`stopReason
      ensures r == stopReason
      ensures old(stopReason).Some? ==> stopReason == old(stopReason)
      ensures old(stopReason).None? ==>
                stopReason ==
                if attempts != [] && attempts[|attempts| - 1].signature.None? then Some(Solved)
                else Axis(config, Signatures(attempts), currentAttempt, elapsed,
                          TokensIn(attempts) + TokensOut(attempts), escalatedOnce)
    {
      if stopReason.Some? {
        return stopReason;
      }
      if attempts != [] && attempts[|attempts| - 1].signature.None? {
        stopReason := Some(Solved);
        return stopReason;
      }
      if currentAttempt >= config.maxReprompts {
        stopReason := Some(ExhaustedAttempts);
        return stopReason;
      }
      if elapsed >= config.maxSeconds {
        stopReason := Some(BudgetSecondsExceeded);
        return stopReason;
      }
      if config.maxTokensTotal.Some? && tokensInTotal + tokensOutTotal >= config.maxTokensTotal.value {
        stopReason := Some(BudgetTokensExceeded);
        return stopReason;
      }
      var overall := SameSignatureOverallTripped();
      if overall {
        stopReason := Some(StuckSignature);
        return stopReason;
      }
      var stalled := ProgressStalledTripped();
      if stalled {
        stopReason := Some(ProgressStalled);
        return stopReason;
      }
      var consecutive := SameErrorConsecutiveTripped();
      if consecutive && escalatedOnce {
        stopReason := Some(StuckSignature);
        return stopReason;
      }
      return None;
    }

    method ShouldEscalate() returns (r: bool)
      requires config.Valid()
      ensures r <==> !escalatedOnce && Streak(Signatures(attempts)) >= config.sameErrorConsecutive
    {
      if escalatedOnce {
        return false;
      }
      r := SameErrorConsecutiveTripped();
    }

    method MarkEscalated()
      modifies this`escalatedOnce
      ensures escalatedOnce
    {
      escalatedOnce := true;
    }

    method MarkStopped(reason: StopReason)
      modifies this`stopReason
      ensures stopReason == Some(reason)
    {
      stopReason := Some(reason);
    }

    function RemainingSeconds(elapsed: real): real
    {
      if config.maxSeconds - elapsed > 0.0 then config.maxSeconds - elapsed else 0.0
    }

    method SameErrorConsecutiveTripped() returns (r: bool)
      requires config.Valid()
      ensures r <==> Streak(Signatures(attempts)) >= config.sameErrorConsecutive
    {
      var sigs, need := Signatures(attempts), config.sameErrorConsecutive;
      StreakBound(sigs);
      if |sigs| < need {
        return false;
      }
      var tail := sigs[|sigs| - need..];
      r := forall i :: 0 <= i < |tail| ==> tail[i] == tail[0];
      TailsAgree(sigs, need);
    }

    method SameSignatureOverallTripped() returns (r: bool)
      requires config.Valid()
      ensures r <==> Repeated(Signatures(attempts), config.sameSignatureOverall)
    {
      var sigs, need := Signatures(attempts), config.sameSignatureOverall;
      var counts: map<Hash, int> := map[];
      RepeatedMeans(sigs, need);
      for i := 0 to |sigs|
        invariant forall h :: h in counts <==> h in sigs[..i]
        invariant forall h :: h in counts ==> counts[h] == Occurrences(sigs[..i], h)
        invariant forall h :: h in counts ==> counts[h] < need
      {
        var h := sigs[i];
        assert sigs[..i + 1][..i] == sigs[..i] && sigs[..i + 1] == sigs[..i] + [h];
        AbsentOccurs(sigs[..i]);
        counts := counts[h := (if h in counts then counts[h] else 0) + 1];
        if counts[h] >= need {
          OccurrencesGrow(sigs, i + 1, h);
          return true;
        }
      }
      assert sigs[..|sigs|] == sigs;
      AbsentOccurs(sigs);
      return false;
    }

    method ProgressStalledTripped() returns (r: bool)
      requires config.Valid()
      ensures r <==> Streak(Signatures(attempts)) >= config.progressStalledWindow
    {
      var sigs, window := Signatures(attempts), config.progressStalledWindow;
      StreakBound(sigs);
      if |sigs| < window {
        return false;
      }
      var tail := sigs[|sigs| - window..];
      var unique := set h | h in tail;
      r := |unique| == 1;
      OneDistinct(tail);
      TailsAgree(sigs, window);
    }
  }

  /** A streak of at least `n` means that the last `n` signatures exist and are all the same. */
  lemma {:induction false} TailsAgree(sigs: seq<Hash>, n: int)
    requires 1 <= n <= |sigs|
    ensures var tail := sigs[|sigs| - n..];
            Streak(sigs) >= n <==> forall i :: 0 <= i < |tail| ==> tail[i] == tail[0]
  {
    var init, tail := sigs[..|sigs| - 1], sigs[|sigs| - n..];
    if n > 1 {
      TailsAgree(init, n - 1);
      assert init[|init| - (n - 1)..] == tail[..n - 1];
      assert tail[n - 1] == sigs[|sigs| - 1] && tail[n - 2] == sigs[|sigs| - 2];
    }
  }

  lemma {:induction false} StreakBound(sigs: seq<Hash>)
    ensures Streak(sigs) <= |sigs|
    ensures sigs != [] ==> Occurrences(sigs, sigs[|sigs| - 1]) >= Streak(sigs) >= 1
  {
    if sigs != [] {
      StreakBound(sigs[..|sigs| - 1]);
    }
  }

  lemma {:induction false} OftenIsRepeated(sigs: seq<Hash>, n: int, h: Hash)
    requires n >= 1 && Occurrences(sigs, h) >= n
    ensures Repeated(sigs, n)
  {
    if h != sigs[|sigs| - 1] {
      OftenIsRepeated(sigs[..|sigs| - 1], n, h);
    }
  }

  lemma {:induction false} RepeatedIsOften(sigs: seq<Hash>, n: int) returns (h: Hash)
    requires Repeated(sigs, n)
    ensures Occurrences(sigs, h) >= n
  {
    h := sigs[|sigs| - 1];
    if Occurrences(sigs, h) < n {
      h := RepeatedIsOften(sigs[..|sigs| - 1], n);
    }
  }

  lemma RepeatedMeans(sigs: seq<Hash>, n: int)
    requires n >= 1
    ensures Repeated(sigs, n) <==> exists h :: Occurrences(sigs, h) >= n
  {
    hide Repeated, Occurrences;
    if Repeated(sigs, n) {
      var h := RepeatedIsOften(sigs, n);
    }
    if h :| Occurrences(sigs, h) >= n {
      OftenIsRepeated(sigs, n, h);
    }
  }

  lemma OneDistinct(tail: seq<Hash>)
    requires tail != []
    ensures |set h | h in tail| == 1 <==> forall i :: 0 <= i < |tail| ==> tail[i] == tail[0]
  {
    var unique := set h | h in tail;
    assert tail[0] in unique;
    if |unique| == 1 {
      assert |unique - {tail[0]}| == 0;
      forall i | 0 <= i < |tail| ensures tail[i] == tail[0] {
        assert tail[i] in unique && tail[i] !in unique - {tail[0]};
      }
    }
    if forall i :: 0 <= i < |tail| ==> tail[i] == tail[0] {
      assert unique == {tail[0]};
    }
  }

  lemma {:induction false} AbsentOccurs(sigs: seq<Hash>)
    ensures forall h :: h in sigs <==> Occurrences(sigs, h) > 0
  {
    if sigs != [] {
      AbsentOccurs(sigs[..|sigs| - 1]);
      assert sigs == sigs[..|sigs| - 1] + [sigs[|sigs| - 1]];
    }
  }

  lemma {:induction false} OccurrencesGrow(sigs: seq<Hash>, i: nat, h: Hash)
    requires i <= |sigs|
    ensures Occurrences(sigs[..i], h) <= Occurrences(sigs, h)
    decreases |sigs|
  {
    if i < |sigs| {
      OccurrencesGrow(sigs[..|sigs| - 1], i, h);
      assert sigs[..|sigs| - 1][..i] == sigs[..i];
    } else {
      assert sigs[..i] == sigs;
    }
  }
}
