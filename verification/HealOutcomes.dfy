/** What the outcome of a heal call says about the provider, the callbacks and the clock
    (aqueduct/agent/loop.py:246-658). */
module HealOutcomes {
  import opened Common
  import opened Budget
  import opened HealLoop
  import opened HealGuarantees

  // ----- one turn, as the provider, the callbacks and the clock see it -----

  /** There is time left to call the provider at all. */
  predicate InTime(cfg: BudgetConfig, s: Settings, t: Turn) {
    s.timeout > 0.0 && t.elapsedAtStart < cfg.maxSeconds
  }

  /** The budget leaves the call less time than its own timeout. */
  predicate CutShort(cfg: BudgetConfig, s: Settings, t: Turn) {
    cfg.maxSeconds - t.elapsedAtStart < s.timeout
  }

  predicate Defers(p: RawPatch) {
    DeferToHuman in p.ops
  }

  /** The reply is rejected at this gate: the first of the four that has something against it. */
  ghost predicate TurnedDown(s: Settings, t: Turn, gate: Gate, hash: Hash) {
    && t.provider.Replied?
    && match t.provider.parse
       case Malformed(h) => gate == SchemaGate && hash == h
       case Parsed(p, _) =>
         match gate
         case DeferGate => Defers(p) && !s.allowDefer && hash == s.deferHash
         case ValidateGate => !Defers(p) && s.deepLoop && s.hasValidate && t.validated == Rejects(hash)
         case ApplyGate =>
           && !Defers(p) && (s.deepLoop && s.hasValidate ==> t.validated == Accepts)
           && s.hasApply && t.applied == Rejects(hash)
         case _ => false
  }

  /** The reply is a patch that mutates, and every callback that is asked accepts it. */
  ghost predicate Approved(s: Settings, t: Turn, p: RawPatch, recovery: seq<string>) {
    && t.provider.Replied? && t.provider.parse.Parsed?
    && t.provider.parse.patch == p && t.provider.parse.recovery == recovery && !Defers(p)
    && (s.deepLoop && s.hasValidate ==> t.validated == Accepts) && (s.hasApply ==> t.applied == Accepts)
  }

  /** The reply hands the failure to a human, which is allowed. */
  ghost predicate HandedOver(s: Settings, t: Turn, p: RawPatch, recovery: seq<string>) {
    && t.provider.Replied? && t.provider.parse.Parsed?
    && t.provider.parse.patch == p && t.provider.parse.recovery == recovery && Defers(p) && s.allowDefer
  }

  lemma JudgeMeans(cfg: BudgetConfig, s: Settings, t: Turn)
    ensures var v := Judge(cfg, s, t);
            && (v.OutOfTime? <==> !InTime(cfg, s, t))
            && (v.CallTimedOut? <==> InTime(cfg, s, t) && t.provider == TimedOut(HashOf(v)) && CutShort(cfg, s, t))
            && (v.CallFailed? <==>
                  && InTime(cfg, s, t)
                  && (t.provider == Failed(HashOf(v)) || (t.provider == TimedOut(HashOf(v)) && !CutShort(cfg, s, t))))
            && (v.Rejected? ==> InTime(cfg, s, t) && TurnedDown(s, t, v.gate, v.hash))
            && (v.Deferring? ==> InTime(cfg, s, t) && HandedOver(s, t, v.patch, v.recovery))
            && (v.Accepted? ==> InTime(cfg, s, t) && Approved(s, t, v.patch, v.recovery))
            && (v.Rejected? || v.Deferring? || v.Accepted? ==>
                  t.provider.Replied? && v.tokensIn == t.provider.tokensIn && v.tokensOut == t.provider.tokensOut)
  {
    if t.provider.Replied? && t.provider.parse.Parsed? {
      var p := t.provider.parse.patch;
      assert HasDefer(p) <==> Defers(p);
    }
  }

  // ----- the axes, on the signatures themselves -----

  /** The last `k` signatures exist and are all the same. */
  ghost predicate Agree(sigs: seq<Hash>, k: int) {
    1 <= k <= |sigs| && forall i :: |sigs| - k <= i < |sigs| ==> sigs[i] == sigs[|sigs| - 1]
  }

  ghost predicate OccursOften(sigs: seq<Hash>, n: int) {
    exists h :: multiset(sigs)[h] >= n
  }

  lemma {:induction false} OccurrencesCount(sigs: seq<Hash>, h: Hash)
    ensures Occurrences(sigs, h) == multiset(sigs)[h]
  {
    if sigs != [] {
      var init, last := sigs[..|sigs| - 1], sigs[|sigs| - 1];
      OccurrencesCount(init, h);
      assert sigs == init + [last];
    }
  }

  lemma RepeatedCounts(sigs: seq<Hash>, n: int)
    requires n >= 1
    ensures Repeated(sigs, n) <==> OccursOften(sigs, n)
  {
    RepeatedMeans(sigs, n);
    if h :| Occurrences(sigs, h) >= n {
      OccurrencesCount(sigs, h);
      assert multiset(sigs)[h] >= n;
    }
    if h :| multiset(sigs)[h] >= n {
      OccurrencesCount(sigs, h);
      assert Occurrences(sigs, h) >= n;
    }
  }

  lemma StreakAgrees(sigs: seq<Hash>, k: int)
    requires k >= 1
    ensures Streak(sigs) >= k <==> Agree(sigs, k)
  {
    hide Streak;
    StreakBound(sigs);
    if k <= |sigs| {
      TailsAgree(sigs, k);
      var tail := sigs[|sigs| - k..];
      assert tail[|tail| - 1] == sigs[|sigs| - 1];
      assert forall i :: |sigs| - k <= i < |sigs| ==> sigs[i] == tail[i - (|sigs| - k)];
      assert forall i :: 0 <= i < |tail| ==> tail[i] == sigs[i + (|sigs| - k)];
    }
  }

  /** Nothing stands against another turn. */
  ghost predicate MayGoOn(cfg: BudgetConfig, sigs: seq<Hash>, turns: nat, elapsed: real, tokens: int,
                          escalatedOnce: bool)
  {
    && turns < cfg.maxReprompts && elapsed < cfg.maxSeconds
    && (cfg.maxTokensTotal.Some? ==> tokens < cfg.maxTokensTotal.value)
    && !OccursOften(sigs, cfg.sameSignatureOverall) && !Agree(sigs, cfg.progressStalledWindow)
    && !(Agree(sigs, cfg.sameErrorConsecutive) && escalatedOnce)
  }

  /** `reason` is the first of the limits that is reached. */
  ghost predicate FirstLimit(cfg: BudgetConfig, sigs: seq<Hash>, turns: nat, elapsed: real, tokens: int,
                             escalatedOnce: bool, reason: StopReason)
  {
    var spent := cfg.maxTokensTotal.Some? && tokens >= cfg.maxTokensTotal.value;
    var often, same := OccursOften(sigs, cfg.sameSignatureOverall), Agree(sigs, cfg.progressStalledWindow);
    if turns >= cfg.maxReprompts then reason == ExhaustedAttempts
    else if elapsed >= cfg.maxSeconds then reason == BudgetSecondsExceeded
    else if spent then reason == BudgetTokensExceeded
    else if often then reason == StuckSignature
    else if same then reason == ProgressStalled
    else Agree(sigs, cfg.sameErrorConsecutive) && escalatedOnce && reason == StuckSignature
  }

  lemma AxisMeans(cfg: BudgetConfig, sigs: seq<Hash>, turns: nat, elapsed: real, tokens: int, escalatedOnce: bool)
    requires cfg.Valid()
    ensures var a := Axis(cfg, sigs, turns, elapsed, tokens, escalatedOnce);
            if a.None? then MayGoOn(cfg, sigs, turns, elapsed, tokens, escalatedOnce)
            else FirstLimit(cfg, sigs, turns, elapsed, tokens, escalatedOnce, a.value)
  {
    hide Streak, Repeated, Agree, OccursOften;
    RepeatedCounts(sigs, cfg.sameSignatureOverall);
    StreakAgrees(sigs, cfg.progressStalledWindow);
    StreakAgrees(sigs, cfg.sameErrorConsecutive);
  }

  // ----- whole calls -----

  /** The signatures were stuck at some point before turn `n`. */
  ghost predicate WasStuck(cfg: BudgetConfig, records: seq<AttemptRecord>, n: nat)
    requires n <= |records|
  {
    exists k :: 0 <= k < n && Agree(Signatures(records[..k]), cfg.sameErrorConsecutive)
  }

  lemma {:induction false} StuckMeans(run: Run, records: seq<AttemptRecord>, n: nat)
    requires run.cfg.Valid() && n <= |records|
    requires forall k :: 0 <= k < n ==> Signatures(records[..k]) == run.Sigs(k)
    ensures run.StuckBefore(n) <==> WasStuck(run.cfg, records, n)
  {
    hide Agree, Streak, Run.Sigs;
    if n > 0 {
      StuckMeans(run, records, n - 1);
      StreakAgrees(run.Sigs(n - 1), run.cfg.sameErrorConsecutive);
    }
  }

  lemma {:induction false} PrefixRows(run: Run, n: nat, k: nat)
    requires k <= n
    ensures run.Rows(n)[..k] == run.Rows(k)
    decreases n
  {
    if k < n {
      PrefixRows(run, n - 1, k);
      RowAt(run, n, n - 1);
      assert run.Rows(n)[..k] == run.Rows(n)[..n - 1][..k];
    } else {
      assert run.Rows(n)[..n] == run.Rows(n);
    }
  }

  /** The first `n` turns were rejected: what their rows say, and what the axes were asked about. */
  lemma RejectedPrefix(run: Run, r: AgentPatchResult, n: nat)
    requires run.cfg.Valid() && run.Yields(r) && 0 < n <= r.attempts && run.Verdict(n - 1).Rejected?
    ensures Signatures(r.records[..n]) == run.Sigs(n) && r.records[..n] == run.Rows(n)
    ensures run.StuckBefore(n) <==> WasStuck(run.cfg, r.records, n)
  {
    hide Judge, Axis, Streak, Run.EscalationDue, Run.AxisAfter, Complaints, Concludes, TokensIn, TokensOut, WasStuck;
    PrefixRows(run, r.attempts, n);
    UndecidedPrefix(run, r.attempts - 1, n - 1);
    LedgerSignatures(run, n);
    forall k: nat | k < n ensures Signatures(r.records[..k]) == run.Sigs(k) {
      PrefixRows(run, r.attempts, k);
      if k > 0 {
        UndecidedPrefix(run, n - 1, k - 1);
        PassedAt(run, n - 1, k - 1);
      }
      LedgerSignatures(run, k);
    }
    StuckMeans(run, r.records, n);
  }

  lemma {:induction false} UndecidedPrefix(run: Run, n: nat, k: nat)
    requires run.Undecided(n) && k <= n
    ensures run.Undecided(k)
    decreases n
  {
    if k < n {
      UndecidedPrefix(run, n - 1, k);
    }
  }

  /** The row of a turn that was turned down. */
  ghost predicate RowOf(t: Turn, row: AttemptRecord, gate: Gate, hash: Hash) {
    && t.provider.Replied? && row.gate == Some(gate) && row.signature == Some(hash)
    && row.tokensIn == t.provider.tokensIn && row.tokensOut == t.provider.tokensOut
  }

  /** Every turn but the last was a reply that one of the gates turned down, was recorded as that, and left every
      limit unreached. */
  lemma EarlierTurns(run: Run, r: AgentPatchResult, i: nat)
    requires run.cfg.Valid() && run.Yields(r) && i < r.attempts - 1
    ensures var t, rows := run.oracle(i), r.records[..i + 1];
            && InTime(run.cfg, run.settings, t)
            && (exists gate, hash :: TurnedDown(run.settings, t, gate, hash) && RowOf(t, r.records[i], gate, hash))
            && MayGoOn(run.cfg, Signatures(rows), i + 1, t.elapsedAtCheck, TokensIn(rows) + TokensOut(rows),
                       WasStuck(run.cfg, r.records, i + 1))
  {
    hide Judge, Axis, Streak, MayGoOn, WasStuck, TurnedDown, RowOf, InTime, Complaints, Concludes, TokensIn, TokensOut,
      Run.EscalationDue, Run.Rows, Run.Sigs, Run.Undecided, Run.StuckBefore, Signatures;
    PassedAt(run, r.attempts - 1, i);
    RejectedPrefix(run, r, i + 1);
    RejectedTurn(run, r, i);
    var t := run.oracle(i);
    AxisMeans(run.cfg, run.Sigs(i + 1), i + 1, t.elapsedAtCheck,
              TokensIn(run.Rows(i + 1)) + TokensOut(run.Rows(i + 1)), run.StuckBefore(i + 1));
  }

  lemma RejectedTurn(run: Run, r: AgentPatchResult, i: nat)
    requires run.Yields(r) && i < r.attempts && run.Verdict(i).Rejected?
    ensures InTime(run.cfg, run.settings, run.oracle(i))
    ensures exists gate, hash ::
              TurnedDown(run.settings, run.oracle(i), gate, hash) && RowOf(run.oracle(i), r.records[i], gate, hash)
  {
    hide Judge, Axis, TurnedDown, InTime, Complaints, Concludes, TokensIn, TokensOut, Run.EscalationDue, Run.Rows,
      Run.Sigs, Run.Undecided, Run.StuckBefore, Run.AxisAfter;
    JudgeMeans(run.cfg, run.settings, run.oracle(i));
    RowAt(run, r.attempts, i);
    var v := run.Verdict(i);
    assert TurnedDown(run.settings, run.oracle(i), v.gate, v.hash)
           && RowOf(run.oracle(i), r.records[i], v.gate, v.hash);
  }

  /** What the last turn was like: the stop reason says what happened, and the row says so too. */
  ghost predicate Ended(run: Run, r: AgentPatchResult, t: Turn, row: AttemptRecord)
    requires r.attempts <= |r.records|
  {
    match r.stopReason
    case Some(Solved) =>
      && InTime(run.cfg, run.settings, t) && r.patch.Some? && Approved(run.settings, t, r.patch.value, r.recovery)
      && ClosedRow(t, row)
    case Some(Deferred) =>
      && InTime(run.cfg, run.settings, t) && r.patch.Some? && HandedOver(run.settings, t, r.patch.value, r.recovery)
      && ClosedRow(t, row)
    case Some(ApiError) =>
      && InTime(run.cfg, run.settings, t) && row.gate == Some(ProviderGate) && row.signature.Some?
      && (t.provider == Failed(row.signature.value)
          || (t.provider == TimedOut(row.signature.value) && !CutShort(run.cfg, run.settings, t)))
    case Some(reason) =>
      || (reason == BudgetSecondsExceeded && OutOfTime(run, t, row))
      || (InTime(run.cfg, run.settings, t) && StoppedAtLimit(run, r, t, row, reason))
    case None => false
  }

  /** The row of a reply that nothing was held against. */
  ghost predicate ClosedRow(t: Turn, row: AttemptRecord) {
    && t.provider.Replied? && row.gate.None? && row.signature.None?
    && row.tokensIn == t.provider.tokensIn && row.tokensOut == t.provider.tokensOut
  }

  /** The clock ended the call: there was no time to ask the provider, or it was cut off. */
  ghost predicate OutOfTime(run: Run, t: Turn, row: AttemptRecord) {
    && row.gate == Some(BudgetGate)
    && match row.signature
       case None => !InTime(run.cfg, run.settings, t)
       case Some(h) =>
         InTime(run.cfg, run.settings, t) && CutShort(run.cfg, run.settings, t) && t.provider == TimedOut(h)
  }

  /** One of the limits did, once the reply had been turned down. */
  ghost predicate StoppedAtLimit(run: Run, r: AgentPatchResult, t: Turn, row: AttemptRecord, reason: StopReason)
    requires r.attempts <= |r.records|
  {
    && (exists gate, hash :: TurnedDown(run.settings, t, gate, hash) && RowOf(t, row, gate, hash))
    && FirstLimit(run.cfg, Signatures(r.records), r.attempts, t.elapsedAtCheck, r.tokensInTotal + r.tokensOutTotal,
                  WasStuck(run.cfg, r.records, r.attempts), reason)
  }

  lemma LimitEnds(run: Run, r: AgentPatchResult)
    requires run.cfg.Valid() && run.Yields(r) && run.Verdict(r.attempts - 1).Rejected?
    ensures r.stopReason.Some? && r.stopReason.value !in {Solved, Deferred, ApiError}
    ensures var t, row := run.oracle(r.attempts - 1), r.records[r.attempts - 1];
            InTime(run.cfg, run.settings, t) && StoppedAtLimit(run, r, t, row, r.stopReason.value)
  {
    hide Judge, Axis, Streak, FirstLimit, WasStuck, TurnedDown, RowOf, Complaints, TokensIn, TokensOut,
      Run.EscalationDue, Run.Undecided, Run.StuckBefore, Run.Sigs, InTime, Signatures;
    var n := r.attempts;
    var t := run.oracle(n - 1);
    RejectedTurn(run, r, n - 1);
    RejectedPrefix(run, r, n);
    assert r.records[..n] == r.records;
    AxisMeans(run.cfg, run.Sigs(n), n, t.elapsedAtCheck, TokensIn(run.Rows(n)) + TokensOut(run.Rows(n)),
              run.StuckBefore(n));
    LimitIsNoSuccess(run.cfg, Signatures(r.records), n, t.elapsedAtCheck, r.tokensInTotal + r.tokensOutTotal,
                     WasStuck(run.cfg, r.records, n), r.stopReason.value);
  }

  /** Every heal call ends for a reason that its last turn bears out. */
  lemma LastTurnMeans(run: Run, r: AgentPatchResult)
    requires run.cfg.Valid() && run.Yields(r)
    ensures r.attempts > 0 && |r.records| == r.attempts
    ensures Ended(run, r, run.oracle(r.attempts - 1), r.records[r.attempts - 1])
  {
    hide Judge, Axis, Streak, TurnedDown, Approved, HandedOver, Complaints, TokensIn, TokensOut, Run.EscalationDue,
      Run.Undecided, InTime, CutShort, StoppedAtLimit;
    var n := r.attempts;
    var v := run.Verdict(n - 1);
    JudgeMeans(run.cfg, run.settings, run.oracle(n - 1));
    RowAt(run, n, n - 1);
    if v.Rejected? {
      LimitEnds(run, r);
    }
  }

  lemma LimitIsNoSuccess(cfg: BudgetConfig, sigs: seq<Hash>, turns: nat, elapsed: real, tokens: int,
                         escalatedOnce: bool, reason: StopReason)
    requires FirstLimit(cfg, sigs, turns, elapsed, tokens, escalatedOnce, reason)
    ensures reason !in {Solved, Deferred, ApiError}
  {
  }

  /** The reprompts report the gates that turned the replies down, in order. */
  lemma {:induction false} ComplaintsMean(run: Run, n: nat)
    requires run.Undecided(n)
    ensures |Complaints(run.Rows(n))| == n
    ensures forall i :: 0 <= i < n ==> run.Rows(n)[i].gate == Some(Complaints(run.Rows(n))[i])
  {
    hide Judge, Axis, Run.EscalationDue, Run.AxisAfter;
    if n > 0 {
      ComplaintsMean(run, n - 1);
      RowAt(run, n, n - 1);
    }
  }

  lemma RepromptErrorsMean(run: Run, r: AgentPatchResult, i: nat)
    requires run.Yields(r) && i < r.attempts - 1
    ensures i < |r.repromptErrors| && r.records[i].gate == Some(r.repromptErrors[i])
  {
    hide Judge, Axis, Run.EscalationDue, Run.AxisAfter, Complaints, TokensIn, TokensOut, Concludes;
    ComplaintsMean(run, r.attempts - 1);
    RowAt(run, r.attempts, r.attempts - 1);
    LastComplaint(run, r.attempts);
  }

  lemma LastComplaint(run: Run, n: nat)
    requires n > 0
    ensures Complaints(run.Rows(n - 1)) <= Complaints(run.Rows(n))
  {
    hide Judge, Run.EscalationDue;
    RowAt(run, n, n - 1);
  }
}
