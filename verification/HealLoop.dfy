/** The reprompt loop of one heal call (aqueduct/agent/loop.py, `generate_agent_patch`).
    Provider, callbacks and clock are an arbitrary oracle that fixes what happens in each turn. */
module HealLoop {
  import opened Common
  import opened Budget

  // ----- patches, as far as the loop looks at them -----

  datatype OpKind = DeferToHuman | Mutating(name: string)

  datatype RawPatch = RawPatch(patchId: string, ops: seq<OpKind>)

  predicate HasDefer(p: RawPatch) {
    exists i :: 0 <= i < |p.ops| && p.ops[i] == DeferToHuman
  }

  /** Schema validation: at least one operation, and deferral is never mixed with mutation. */
  predicate ValidPatch(p: RawPatch) {
    && p.ops != []
    && (HasDefer(p) ==> forall i :: 0 <= i < |p.ops| ==> p.ops[i] == DeferToHuman)
  }

  type PatchSpec = p: RawPatch | ValidPatch(p) witness RawPatch("", [Mutating("")])

  // ----- the oracle -----

  datatype ParseOutcome = Malformed(hash: Hash) | Parsed(patch: PatchSpec, recovery: seq<string>)

  datatype ProviderOutcome =
    | TimedOut(hash: Hash)
    | Failed(hash: Hash)
    | Replied(tokensIn: int, tokensOut: int, parse: ParseOutcome)

  /** A callback accepts, or rejects (or raises) with an error that hashes to `hash`. */
  datatype CallbackOutcome = Accepts | Rejects(hash: Hash)

  datatype Turn = Turn(
    elapsedAtStart: real,
    provider: ProviderOutcome,
    validated: CallbackOutcome,
    applied: CallbackOutcome,
    elapsedAtCheck: real)

  type Oracle = nat -> Turn

  datatype Settings = Settings(
    timeout: real,
    allowDefer: bool,
    deepLoop: bool,
    hasValidate: bool,
    hasApply: bool,
    deferHash: Hash,
    position: Option<nat>)

  datatype AgentPatchResult = AgentPatchResult(
    patch: Option<PatchSpec>,
    attempts: nat,
    repromptErrors: seq<Gate>,
    stopReason: Option<StopReason>,
    tokensInTotal: int,
    tokensOutTotal: int,
    records: seq<AttemptRecord>,
    escalated: bool,
    recovery: seq<string>)

  datatype Role = User | Assistant

  // ----- what a turn amounts to -----

  datatype Verdict =
    | OutOfTime
    | CallTimedOut(hash: Hash)
    | CallFailed(hash: Hash)
    | Rejected(gate: Gate, hash: Hash, tokensIn: int, tokensOut: int)
    | Deferring(patch: PatchSpec, recovery: seq<string>, tokensIn: int, tokensOut: int)
    | Accepted(patch: PatchSpec, recovery: seq<string>, tokensIn: int, tokensOut: int)

  function Deadline(cfg: BudgetConfig, s: Settings, t: Turn): real {
    var left := if cfg.maxSeconds - t.elapsedAtStart > 0.0 then cfg.maxSeconds - t.elapsedAtStart else 0.0;
    if s.timeout <= left then s.timeout else left
  }

  function Judge(cfg: BudgetConfig, s: Settings, t: Turn): Verdict {
    if Deadline(cfg, s, t) <= 0.0 then OutOfTime else
    match t.provider
    case TimedOut(h) => if Deadline(cfg, s, t) < s.timeout then CallTimedOut(h) else CallFailed(h)
    case Failed(h) => CallFailed(h)
    case Replied(i, o, Malformed(h)) => Rejected(SchemaGate, h, i, o)
    case Replied(i, o, Parsed(p, rec)) =>
      if HasDefer(p) then (if s.allowDefer then Deferring(p, rec, i, o) else Rejected(DeferGate, s.deferHash, i, o))
      else if s.deepLoop && s.hasValidate && t.validated.Rejects? then Rejected(ValidateGate, t.validated.hash, i, o)
      else if s.hasApply && t.applied.Rejects? then Rejected(ApplyGate, t.applied.hash, i, o)
      else Accepted(p, rec, i, o)
  }

  /** The ledger row of a turn. */
  function RecordOf(s: Settings, index: nat, v: Verdict, escalated: bool): AttemptRecord {
    match v
    case OutOfTime => AttemptRecord(index + 1, None, 0, 0, Some(BudgetGate), escalated, s.position)
    case CallTimedOut(h) => AttemptRecord(index + 1, Some(h), 0, 0, Some(BudgetGate), escalated, s.position)
    case CallFailed(h) => AttemptRecord(index + 1, Some(h), 0, 0, Some(ProviderGate), escalated, s.position)
    case Rejected(g, h, i, o) => AttemptRecord(index + 1, Some(h), i, o, Some(g), escalated, s.position)
    case Deferring(_, _, i, o) => AttemptRecord(index + 1, None, i, o, None, escalated, s.position)
    case Accepted(_, _, i, o) => AttemptRecord(index + 1, None, i, o, None, escalated, s.position)
  }

  function HashOf(v: Verdict): Hash {
    match v
    case CallTimedOut(h) => h
    case CallFailed(h) => h
    case Rejected(_, h, _, _) => h
    case _ => ""
  }

  /** Gates of the rows that carry a signature. */
  function Complaints(records: seq<AttemptRecord>): seq<Gate> {
    if records == [] then [] else
    var init, last := Complaints(records[..|records| - 1]), records[|records| - 1];
    if last.signature.Some? && last.gate.Some? then init + [last.gate.value] else init
  }

  /** How a deciding turn leaves patch, recovery and stop reason. */
  predicate Concludes(v: Verdict, patch: Option<PatchSpec>, recovery: seq<string>, reason: Option<StopReason>) {
    match v
    case OutOfTime => patch.None? && reason == Some(BudgetSecondsExceeded)
    case CallTimedOut(_) => patch.None? && reason == Some(BudgetSecondsExceeded)
    case CallFailed(_) => patch.None? && reason == Some(ApiError)
    case Rejected(_, _, _, _) => patch.None?
    case Deferring(p, rec, _, _) => patch == Some(p) && reason == Some(Deferred) && recovery == rec
    case Accepted(p, rec, _, _) => patch == Some(p) && reason == Some(Solved) && recovery == rec
  }

  // ----- the run as a relation between oracle and result -----

  /** A heal call is determined by its budget, its settings and the oracle. */
  datatype Run = Run(cfg: BudgetConfig, settings: Settings, oracle: Oracle)
  {
    function Verdict(i: nat): Verdict {
      Judge(cfg, settings, oracle(i))
    }

    /** The signatures of the first `n` turns. */
    ghost function Sigs(n: nat): (sigs: seq<Hash>)
      ensures |sigs| == n
    {
      if n == 0 then [] else Sigs(n - 1) + [HashOf(Verdict(n - 1))]
    }

    /** The last `same_error_consecutive` of the first `n` signatures agree. */
    ghost predicate Stuck(n: nat) {
      Streak(Sigs(n)) >= cfg.sameErrorConsecutive
    }

    /** The signatures were stuck at some point before turn `n` was recorded. */
    ghost predicate StuckBefore(n: nat) {
      n > 0 && (StuckBefore(n - 1) || Stuck(n - 1))
    }

    /** Turn `n` runs escalated: the turns before it are stuck for the first time. */
    ghost predicate EscalationDue(n: nat) {
      Stuck(n) && !StuckBefore(n)
    }

    ghost function Row(i: nat): AttemptRecord {
      RecordOf(settings, i, Verdict(i), EscalationDue(i))
    }

    ghost function Rows(n: nat): (rows: seq<AttemptRecord>)
      ensures |rows| == n
    {
      if n == 0 then [] else Rows(n - 1) + [Row(n - 1)]
    }

    /** The axis that trips after `n` rejected turns, if any. */
    ghost function AxisAfter(n: nat): Option<StopReason>
      requires n > 0
    {
      Axis(cfg, Sigs(n), n, oracle(n - 1).elapsedAtCheck, TokensIn(Rows(n)) + TokensOut(Rows(n)), StuckBefore(n))
    }

    /** Turn `i` was rejected and tripped no axis. */
    ghost predicate Passed(i: nat) {
      Verdict(i).Rejected? && AxisAfter(i + 1).None?
    }

    /** The first `n` turns all passed on to the next. */
    ghost predicate Undecided(n: nat) {
      n > 0 ==> Undecided(n - 1) && Passed(n - 1)
    }

    /** `r` is the outcome of this run. */
    ghost predicate Yields(r: AgentPatchResult) {
      var n := r.attempts;
      && n >= 1 && r.records == Rows(n) && Undecided(n - 1)
      && Concludes(Verdict(n - 1), r.patch, r.recovery, r.stopReason)
      && (r.patch.None? ==> r.recovery == [])
      && (Verdict(n - 1).Rejected? ==> r.stopReason.Some? && r.stopReason == AxisAfter(n))
      && r.repromptErrors == Complaints(r.records)
      && r.tokensInTotal == TokensIn(r.records) && r.tokensOutTotal == TokensOut(r.records)
      && (r.escalated <==> StuckBefore(n))
    }
  }

  // ----- the loop -----

  ghost predicate Consecutive(cfg: BudgetConfig, records: seq<AttemptRecord>) {
    Streak(Signatures(records)) >= cfg.sameErrorConsecutive
  }

  /** Book-keeping shared by the four rejection branches: record, check the axes, decide on
      escalation for the next turn. */
  method Reject(tracker: BudgetTracker, s: Settings, gate: Gate, hash: Hash, tokensIn: int, tokensOut: int,
                escalateNow: bool, elapsed: real)
    returns (stop: bool, escalateNext: bool)
    requires tracker.config.Valid() && tracker.Balanced() && tracker.stopReason.None?
    requires tracker.currentAttempt == |tracker.attempts| + 1
    modifies tracker
    ensures tracker.Balanced() && tracker.currentAttempt == old(tracker.currentAttempt)
    ensures tracker.attempts == old(tracker.attempts) +
              [AttemptRecord(tracker.currentAttempt, Some(hash), tokensIn, tokensOut, Some(gate), escalateNow,
                s.position)]
    ensures tracker.stopReason == Axis(tracker.config, Signatures(tracker.attempts), tracker.currentAttempt, elapsed,
                                       TokensIn(tracker.attempts) + TokensOut(tracker.attempts),
                                       old(tracker.escalatedOnce))
    ensures stop <==> tracker.stopReason.Some?
    ensures stop ==> tracker.escalatedOnce == old(tracker.escalatedOnce)
    ensures !stop ==> (escalateNext <==> Consecutive(tracker.config, tracker.attempts) && !old(tracker.escalatedOnce))
    ensures !stop ==> (tracker.escalatedOnce <==>
            old(tracker.escalatedOnce) || Consecutive(tracker.config, tracker.attempts))
  {
    hide Streak, Repeated, Occurrences, Signatures;
    tracker.Record(Some(hash), tokensIn, tokensOut, Some(gate), escalateNow, s.position);
    var reason := tracker.CheckStop(elapsed);
    if reason.Some? && reason.value != Solved {
      return true, false;
    }
    escalateNext := tracker.ShouldEscalate();
    if escalateNext {
      tracker.MarkEscalated();
    }
    return false, escalateNext;
  }

  lemma ComplaintsSnoc(records: seq<AttemptRecord>, rec: AttemptRecord)
    ensures Complaints(records + [rec]) ==
            Complaints(records) + if rec.signature.Some? && rec.gate.Some? then [rec.gate.value] else []
  {
  }

  /** The conversation after `k` rejected turns: the prompt, then a reply and a reprompt for each. */
  ghost predicate Conversation(messages: seq<Role>, k: nat) {
    && |messages| == 2 * k + 1 && messages[0] == User
    && forall i :: 0 <= i < k ==> messages[2 * i + 1] == Assistant && messages[2 * i + 2] == User
  }

  lemma NextTurn(messages: seq<Role>, k: nat)
    requires Conversation(messages, k)
    ensures Conversation(messages + [Assistant, User], k + 1)
  {
  }

  /** What the loop has established when it is about to begin turn `n`. */
  ghost predicate AtHead(run: Run, n: nat, escalatedOnce: bool, escalateNext: bool) {
    && run.Undecided(n)
    && (escalatedOnce <==> run.StuckBefore(n + 1))
    && (escalateNext <==> run.EscalationDue(n))
    && (n > 0 ==> n < run.cfg.maxReprompts)
  }

  /** What the loop has established when it leaves after `n` turns. */
  ghost predicate Finished(run: Run, n: nat, escalatedOnce: bool, patch: Option<PatchSpec>, recovery: seq<string>,
                           reason: Option<StopReason>)
  {
    && n > 0 && reason.Some? && run.Undecided(n - 1)
    && (escalatedOnce <==> run.StuckBefore(n))
    && Concludes(run.Verdict(n - 1), patch, recovery, reason)
    && (run.Verdict(n - 1).Rejected? ==> reason == run.AxisAfter(n))
  }

  lemma {:induction false} RowAt(run: Run, n: nat, i: nat)
    requires i < n
    ensures run.Rows(n)[i] == run.Row(i) && run.Sigs(n)[i] == HashOf(run.Verdict(i))
    ensures run.Rows(n)[..n - 1] == run.Rows(n - 1) && run.Sigs(n)[..n - 1] == run.Sigs(n - 1)
  {
    hide Judge, Run.EscalationDue;
    if i < n - 1 {
      RowAt(run, n - 1, i);
    }
  }

  lemma {:induction false} PassedAt(run: Run, n: nat, i: nat)
    requires run.Undecided(n) && i < n
    ensures run.Passed(i)
  {
    if i < n - 1 {
      PassedAt(run, n - 1, i);
    }
  }

  /** As long as every turn was rejected, the ledger's signatures are those of the turns. */
  lemma {:induction false} LedgerSignatures(run: Run, n: nat)
    requires n > 0 ==> run.Undecided(n - 1) && run.Verdict(n - 1).Rejected?
    ensures Signatures(run.Rows(n)) == run.Sigs(n)
  {
    hide Judge, HashOf, RecordOf, Run.EscalationDue, Run.AxisAfter;
    if n > 0 {
      LedgerSignatures(run, n - 1);
      RowAt(run, n, n - 1);
      RejectedRow(run, n - 1);
    }
  }

  lemma RejectedRow(run: Run, i: nat)
    requires run.Verdict(i).Rejected?
    ensures run.Row(i).signature == Some(HashOf(run.Verdict(i)))
  {
    hide Judge, Run.EscalationDue;
  }

  lemma AxisOfLedger(run: Run, n: nat, escalatedBefore: bool)
    requires run.Undecided(n) && run.Verdict(n).Rejected? && (escalatedBefore <==> run.StuckBefore(n + 1))
    ensures run.AxisAfter(n + 1) == Axis(run.cfg, Signatures(run.Rows(n + 1)), n + 1, run.oracle(n).elapsedAtCheck,
                                         TokensIn(run.Rows(n + 1)) + TokensOut(run.Rows(n + 1)), escalatedBefore)
    ensures run.Stuck(n + 1) <==> Consecutive(run.cfg, run.Rows(n + 1))
  {
    hide Streak, Repeated, Occurrences, Judge;
    LedgerSignatures(run, n + 1);
  }

  /** A rejected turn that trips no axis leads to the next head of the loop. */
  lemma AfterRejection(run: Run, n: nat, escalatedBefore: bool)
    requires run.cfg.Valid() && run.Undecided(n) && (escalatedBefore <==> run.StuckBefore(n + 1))
    requires run.Verdict(n).Rejected? && run.AxisAfter(n + 1).None?
    ensures AtHead(run, n + 1, escalatedBefore || run.Stuck(n + 1), run.Stuck(n + 1) && !escalatedBefore)
  {
  }

  /** One pass through the loop body. */
  method TakeTurn(tracker: BudgetTracker, s: Settings, turn: Turn, escalateNow: bool)
    returns (done: bool, patch: Option<PatchSpec>, recovery: seq<string>, complaint: Option<Gate>, escalateNext: bool)
    requires tracker.config.Valid() && tracker.Balanced() && tracker.stopReason.None?
    requires tracker.currentAttempt == |tracker.attempts|
    modifies tracker
    ensures tracker.Balanced() && tracker.currentAttempt == |tracker.attempts|
    ensures var v := Judge(tracker.config, s, turn);
            && tracker.attempts == old(tracker.attempts) + [RecordOf(s, old(|tracker.attempts|), v, escalateNow)]
            && complaint == (if v.OutOfTime? || v.Deferring? || v.Accepted? then None
                             else RecordOf(s, old(|tracker.attempts|), v, escalateNow).gate)
            && Concludes(v, patch, recovery, tracker.stopReason)
            && (!v.Rejected? ==> done)
            && (v.Rejected? ==>
                  tracker.stopReason
                    == Axis(tracker.config, Signatures(tracker.attempts), |tracker.attempts|, turn.elapsedAtCheck,
                            TokensIn(tracker.attempts) + TokensOut(tracker.attempts), old(tracker.escalatedOnce)))
    ensures done <==> tracker.stopReason.Some?
    ensures done ==> tracker.escalatedOnce == old(tracker.escalatedOnce)
    ensures !done ==> (escalateNext <==> Consecutive(tracker.config, tracker.attempts) && !old(tracker.escalatedOnce))
    ensures !done ==> (tracker.escalatedOnce <==>
            old(tracker.escalatedOnce) || Consecutive(tracker.config, tracker.attempts))
  {
    hide Axis, Signatures, TokensIn, TokensOut, Streak;
    patch, recovery, complaint, escalateNext := None, [], None, false;
    var _ := tracker.BeginAttempt();
    var remaining := tracker.RemainingSeconds(turn.elapsedAtStart);
    var deadline := if s.timeout <= remaining then s.timeout else remaining;
    if deadline <= 0.0 {
      tracker.Record(None, 0, 0, Some(BudgetGate), escalateNow, s.position);
      tracker.MarkStopped(BudgetSecondsExceeded);
      done := true;
      return;
    }
    if turn.provider.TimedOut? && deadline < s.timeout {
      complaint := Some(BudgetGate);
      tracker.Record(Some(turn.provider.hash), 0, 0, Some(BudgetGate), escalateNow, s.position);
      tracker.MarkStopped(BudgetSecondsExceeded);
      done := true;
      return;
    }
    if !turn.provider.Replied? {
      complaint := Some(ProviderGate);
      tracker.Record(Some(turn.provider.hash), 0, 0, Some(ProviderGate), escalateNow, s.position);
      tracker.MarkStopped(ApiError);
      done := true;
      return;
    }
    var tokensIn, tokensOut := turn.provider.tokensIn, turn.provider.tokensOut;

    // parse phase
    if turn.provider.parse.Malformed? {
      complaint := Some(SchemaGate);
      done, escalateNext :=
        Reject(tracker, s, SchemaGate, turn.provider.parse.hash, tokensIn, tokensOut, escalateNow, turn.elapsedAtCheck);
      return;
    }
    var parsed := turn.provider.parse.patch;

    // deferral
    if HasDefer(parsed) {
      if !s.allowDefer {
        complaint := Some(DeferGate);
        done, escalateNext := Reject(tracker, s, DeferGate, s.deferHash, tokensIn, tokensOut, escalateNow,
          turn.elapsedAtCheck);
        return;
      }
      patch, recovery, done := Some(parsed), turn.provider.parse.recovery, true;
      tracker.Record(None, tokensIn, tokensOut, None, escalateNow, s.position);
      tracker.MarkStopped(Deferred);
      return;
    }

    // in-conversation validation
    if s.deepLoop && s.hasValidate && turn.validated.Rejects? {
      complaint := Some(ValidateGate);
      done, escalateNext :=
        Reject(tracker, s, ValidateGate, turn.validated.hash, tokensIn, tokensOut, escalateNow, turn.elapsedAtCheck);
      return;
    }

    // apply phase
    if s.hasApply && turn.applied.Rejects? {
      complaint := Some(ApplyGate);
      done, escalateNext := Reject(tracker, s, ApplyGate, turn.applied.hash, tokensIn, tokensOut, escalateNow,
        turn.elapsedAtCheck);
      return;
    }
    patch, recovery, done := Some(parsed), turn.provider.parse.recovery, true;
    tracker.Record(None, tokensIn, tokensOut, None, escalateNow, s.position);
    var _ := tracker.CheckStop(turn.elapsedAtCheck);
  }

  lemma FirstHead(run: Run)
    requires run.cfg.Valid()
    ensures AtHead(run, 0, false, false) && run.Rows(0) == []
  {
  }

  lemma LastTurn(run: Run, r: AgentPatchResult)
    requires Finished(run, r.attempts, r.escalated, r.patch, r.recovery, r.stopReason)
    requires r.records == run.Rows(r.attempts) && r.repromptErrors == Complaints(r.records)
    requires r.tokensInTotal == TokensIn(r.records) && r.tokensOutTotal == TokensOut(r.records)
    requires r.patch.None? ==> r.recovery == []
    ensures run.Yields(r)
  {
  }

  /** The loop invariant. */
  ghost predicate InLoop(run: Run, tracker: BudgetTracker, done: bool, escalateNext: bool, patch: Option<PatchSpec>,
                         recovery: seq<string>, repromptErrors: seq<Gate>)
    reads tracker
  {
    var n := |tracker.attempts|;
    && tracker.config == run.cfg && tracker.Balanced()
    && tracker.currentAttempt == n && tracker.attempts == run.Rows(n)
    && repromptErrors == Complaints(tracker.attempts)
    && (done <==> tracker.stopReason.Some?)
    && (!done ==> AtHead(run, n, tracker.escalatedOnce, escalateNext))
    && (done ==> Finished(run, n, tracker.escalatedOnce, patch, recovery, tracker.stopReason))
  }

  /** One iteration of the loop. */
  method Iterate(ghost run: Run, tracker: BudgetTracker, s: Settings, turn: Turn, escalateNow: bool,
                 repromptErrors0: seq<Gate>)
    returns (done: bool, patch: Option<PatchSpec>, recovery: seq<string>, repromptErrors: seq<Gate>, escalateNext: bool)
    requires run.cfg.Valid() && run.settings == s && turn == run.oracle(|tracker.attempts|)
    requires InLoop(run, tracker, false, escalateNow, None, [], repromptErrors0)
    modifies tracker
    ensures InLoop(run, tracker, done, escalateNext, patch, recovery, repromptErrors)
    ensures |tracker.attempts| == old(|tracker.attempts|) + 1
  {
    hide Streak, Judge, Axis, TokensIn, TokensOut, Complaints, Run.Stuck;
    ghost var n, escalatedBefore := |tracker.attempts|, tracker.escalatedOnce;
    ComplaintsSnoc(tracker.attempts, run.Row(n));
    var complaint: Option<Gate>;
    done, patch, recovery, complaint, escalateNext := TakeTurn(tracker, s, turn, escalateNow);
    if run.Verdict(n).Rejected? {
      AxisOfLedger(run, n, escalatedBefore);
      if !done {
        AfterRejection(run, n, escalatedBefore);
      }
    }
    repromptErrors := repromptErrors0 + if complaint.Some? then [complaint.value] else [];
  }

  method GenerateAgentPatch(cfg: BudgetConfig, s: Settings, oracle: Oracle)
    returns (r: AgentPatchResult, messages: seq<Role>)
    requires cfg.Valid()
    ensures Run(cfg, s, oracle).Yields(r)
    // the conversation of the last turn: one prompt, then two messages per rejected turn
    ensures Conversation(messages, r.attempts - 1)
  {
    hide Streak, Judge, Axis, TokensIn, TokensOut, Consecutive, Run.Undecided, Run.Rows, Run.StuckBefore,
      Run.EscalationDue, Run.AxisAfter, Run.Yields;
    ghost var run := Run(cfg, s, oracle);
    var tracker := new BudgetTracker(cfg);
    FirstHead(run);
    messages := [User];
    var patch: Option<PatchSpec>, recovery: seq<string> := None, [];
    var repromptErrors: seq<Gate> := [];
    var escalateNext, done := false, false;
    ghost var turns := 0;
    while !done
      invariant fresh(tracker) && InLoop(run, tracker, done, escalateNext, patch, recovery, repromptErrors)
      invariant |tracker.attempts| == (if done then turns + 1 else turns) && Conversation(messages, turns)
      decreases !done, cfg.maxReprompts - |tracker.attempts|
    {
      done, patch, recovery, repromptErrors, escalateNext :=
        Iterate(run, tracker, s, oracle(|tracker.attempts|), escalateNext, repromptErrors);
      if !done {
        NextTurn(messages, turns);
        messages, turns := messages + [Assistant, User], turns + 1;
      }
    }
    r := AgentPatchResult(patch, tracker.currentAttempt, repromptErrors, tracker.stopReason,
                          tracker.tokensInTotal, tracker.tokensOutTotal, tracker.attempts, tracker.escalatedOnce,
                          if patch.Some? then recovery else []);
    LastTurn(run, r);
  }
}
