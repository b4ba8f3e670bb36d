/**
 The autonomous cycle: analyst, confidence gate, executor. The pure step is the meaning of one `runCycle`;
 the theorems are about any sequence of cycles, operator resets and outside snapshots, with arbitrary
 service answers. `Orchestrator.RunCycle` is the program that refines the step.
 */
module Cycle {
  import opened Prelude
  import opened Decimal
  import opened RiskGuard
  import opened FundState
  import A = Analyst
  import X = Executor

  datatype AgentState = AgentState(risk: RiskState, funds: FundState, runs: seq<X.RunRecord>, audit: seq<X.AuditEntry>)

  datatype CycleInput = CycleInput(input: A.Input, seen: A.Oracle, done: X.Oracle)

  datatype Op = Cycle(c: CycleInput) | OperatorReset | OutsideSnapshot(value: nat)

  function Initial(now: nat): AgentState {
    AgentState(DEFAULT_STATE, DefaultState(now), [], [])
  }

  function Proposal(env: A.Env, s: AgentState, c: CycleInput): Option<A.Proposal> {
    A.Propose(env, c.input, c.seen, Tripped(s.risk, env.limits, c.seen.now))
  }

  /** The cycle gets as far as running the executor. */
  predicate Starts(env: A.Env, s: AgentState, c: CycleInput) {
    var p := Proposal(env, s, c);
    p.Some? && !A.Gated(p.value) && c.done.keysOk
  }

  function Execute(env: A.Env, s: AgentState, p: A.Proposal, o: X.Oracle): AgentState {
    var r := X.Classify(env, p, o);
    AgentState(
      X.RiskAfter(s.risk, r.outcome, p, o.at, env.limits.maxRevertStreak),
      X.FundsAfter(s.funds, r, o.at),
      s.runs + [r],
      s.audit + [X.AuditEntry(p.action, p.amountIn, r.outcome)])
  }

  function CycleStep(env: A.Env, s: AgentState, c: CycleInput): AgentState {
    if Starts(env, s, c) then Execute(env, s, Proposal(env, s, c).value, c.done) else s
  }

  function Step(env: A.Env, s: AgentState, op: Op): AgentState {
    match op
    case Cycle(c) => CycleStep(env, s, c)
    case OperatorReset => s.(risk := After(s.risk, Reset, env.limits.maxRevertStreak))
    case OutsideSnapshot(v) => s.(risk := AfterSnapshot(s.risk, v))
  }

  function Run(env: A.Env, s: AgentState, ops: seq<Op>): AgentState
    decreases |ops|
  {
    if ops == [] then s else Run(env, Step(env, s, ops[0]), ops[1..])
  }

  // ---- the breaker over runs ----

  /** The executor never starts while the breaker is tripped, whatever time passed since the analyst looked. */
  lemma StartsUntripped(env: A.Env, s: AgentState, c: CycleInput)
    requires c.seen.now <= c.done.at && Starts(env, s, c)
    ensures !Tripped(s.risk, env.limits, c.seen.now) && !Tripped(s.risk, env.limits, c.done.at)
  {
    A.TrippedIsGated(env, c.input, c.seen);
  }

  lemma {:induction false} RunAppend(env: A.Env, s: AgentState, ops: seq<Op>, i: nat)
    requires i < |ops|
    ensures Run(env, s, ops[..i + 1]) == Step(env, Run(env, s, ops[..i]), ops[i])
    decreases i
  {
    if i == 0 {
      assert ops[..1][1..] == [] && ops[..0] == [];
    } else {
      RunAppend(env, Step(env, s, ops[0]), ops[1..], i - 1);
      assert ops[..i + 1][1..] == ops[1..][..i] && ops[..i][1..] == ops[1..][..i - 1];
    }
  }

  /**
   Over any run: whenever an operation makes a new executor run, it is a cycle, and the breaker was tripped neither
   when the analyst looked nor when the executor acted.
   */
  lemma NeverStartsTripped(env: A.Env, s: AgentState, ops: seq<Op>, i: nat)
    requires i < |ops| && (ops[i].Cycle? ==> ops[i].c.seen.now <= ops[i].c.done.at)
    ensures var before, after := Run(env, s, ops[..i]), Run(env, s, ops[..i + 1]);
            after.runs != before.runs ==>
              && ops[i].Cycle?
              && !Tripped(before.risk, env.limits, ops[i].c.seen.now)
              && !Tripped(before.risk, env.limits, ops[i].c.done.at)
              && |after.runs| == |before.runs| + 1
  {
    RunAppend(env, s, ops, i);
    var before := Run(env, s, ops[..i]);
    if ops[i].Cycle? && Starts(env, before, ops[i].c) {
      StartsUntripped(env, before, ops[i].c);
    }
  }

  /**
   Once the revert streak is at its limit, no operation but a reset clears it: every cycle, at any time, leaves
   everything unchanged, so nothing is executed, nothing is recorded, and the audit log gets no entry either.
   */
  lemma {:induction false} LatchedByStreak(env: A.Env, s: AgentState, ops: seq<Op>)
    requires s.risk.revertStreak >= env.limits.maxRevertStreak
    requires forall i :: 0 <= i < |ops| ==> !ops[i].OperatorReset?
    ensures var s' := Run(env, s, ops);
            && s'.funds == s.funds && s'.runs == s.runs && s'.audit == s.audit
            && s'.risk == s.risk.(peakMotes := s'.risk.peakMotes, lastValueMotes := s'.risk.lastValueMotes)
            && forall now: nat :: Tripped(s'.risk, env.limits, now)
    ensures (forall i :: 0 <= i < |ops| ==> ops[i].Cycle?) ==> Run(env, s, ops) == s
    decreases |ops|
  {
    if ops != [] {
      if ops[0].Cycle? {
        A.TrippedIsGated(env, ops[0].c.input, ops[0].c.seen);
        assert Step(env, s, ops[0]) == s;
      }
      LatchedByStreak(env, Step(env, s, ops[0]), ops[1..]);
    }
  }

  /** Once the drawdown is over its limit, only an outside snapshot changes that: no reset does, and no cycle runs. */
  lemma {:induction false} LatchedByDrawdown(env: A.Env, s: AgentState, ops: seq<Op>)
    requires DrawdownPct(s.risk) > env.limits.maxDrawdownPct
    requires forall i :: 0 <= i < |ops| ==> !ops[i].OutsideSnapshot?
    ensures var s' := Run(env, s, ops);
            && s'.funds == s.funds && s'.runs == s.runs && s'.audit == s.audit
            && s'.risk.peakMotes == s.risk.peakMotes && s'.risk.lastValueMotes == s.risk.lastValueMotes
            && forall now: nat :: Tripped(s'.risk, env.limits, now)
    ensures (forall i :: 0 <= i < |ops| ==> ops[i].Cycle?) ==> Run(env, s, ops) == s
    decreases |ops|
  {
    if ops != [] {
      if ops[0].Cycle? {
        A.TrippedIsGated(env, ops[0].c.input, ops[0].c.seen);
        assert Step(env, s, ops[0]) == s;
      }
      LatchedByDrawdown(env, Step(env, s, ops[0]), ops[1..]);
    }
  }

  predicate CooldownImpliesStreak(env: A.Env, s: AgentState) {
    s.risk.trippedUntil > 0 ==> s.risk.revertStreak >= env.limits.maxRevertStreak
  }

  lemma CooldownStep(env: A.Env, s: AgentState, op: Op)
    requires env.limits.maxRevertStreak > 0 && CooldownImpliesStreak(env, s)
    ensures CooldownImpliesStreak(env, Step(env, s, op))
  {
    if op.Cycle? && Starts(env, s, op.c) {
      A.TrippedIsGated(env, op.c.input, op.c.seen);
      assert s.risk.revertStreak < env.limits.maxRevertStreak;
    }
  }

  lemma {:induction false} CooldownKept(env: A.Env, s: AgentState, ops: seq<Op>)
    requires env.limits.maxRevertStreak > 0 && CooldownImpliesStreak(env, s)
    ensures CooldownImpliesStreak(env, Run(env, s, ops))
    decreases |ops|
  {
    if ops != [] {
      CooldownStep(env, s, ops[0]);
      CooldownKept(env, Step(env, s, ops[0]), ops[1..]);
    }
  }

  /**
   In every state the agent can reach, the ten-minute cooldown decides nothing: the breaker is tripped iff the streak or
   the drawdown is over its limit, at any time. Waiting never reopens it.
   */
  lemma CooldownIsRedundant(env: A.Env, now: nat, ops: seq<Op>)
    requires env.limits.maxRevertStreak > 0
    ensures var s := Run(env, Initial(now), ops);
            forall later: nat :: Tripped(s.risk, env.limits, later) <==>
              s.risk.revertStreak >= env.limits.maxRevertStreak || DrawdownPct(s.risk) > env.limits.maxDrawdownPct
  {
    CooldownKept(env, Initial(now), ops);
  }

  // ---- the confidence gate ----

  /** Everything a cycle needs to get to the executor, apart from the confidence. */
  predicate Ready(env: A.Env, s: AgentState, c: CycleInput) {
    && !Tripped(s.risk, env.limits, c.seen.now) && c.seen.keysOk && c.done.keysOk
    && A.Answers(env, c.input, c.seen)
  }

  /** A cycle runs the executor iff it is ready and the decider's confidence is one that gets through. */
  lemma StartsIff(env: A.Env, s: AgentState, c: CycleInput)
    ensures Starts(env, s, c) <==>
              Ready(env, s, c) && A.Confident(env, c.input, A.Given(env, c.input, c.seen))
  {
    A.TrippedIsGated(env, c.input, c.seen);
    A.ProposesIff(env, c.input, c.seen);
    if A.Answers(env, c.input, c.seen) {
      A.FinalPassesIff(env, c.input, A.Given(env, c.input, c.seen));
    }
  }

  /** What starts has a confidence of at least 50 or none in numbers, the latter exactly in the `Unscored` cycles. */
  lemma UnscoredPassesGate(env: A.Env, s: AgentState, c: CycleInput)
    ensures Starts(env, s, c) && !Proposal(env, s, c).value.confidence.Score? <==>
              Ready(env, s, c) && A.Unscored(env, c.input, A.Given(env, c.input, c.seen))
    ensures Starts(env, s, c) && Proposal(env, s, c).value.confidence.Score? ==>
              Proposal(env, s, c).value.confidence.value >= 50.0
  {
    StartsIff(env, s, c);
    A.ProposesIff(env, c.input, c.seen);
    if A.Answers(env, c.input, c.seen) {
      A.FinalPassesIff(env, c.input, A.Given(env, c.input, c.seen));
    }
  }

  /** A first cycle in which the language model's swap, with no confidence, is executed. */
  lemma UnscoredSwapRuns(env: A.Env, now: nat)
    requires env.llmConfigured && env.limits.maxRevertStreak > 0 && env.limits.maxDrawdownPct >= 0.0
    ensures exists c: CycleInput ::
              && Proposal(env, Initial(now), c)
                 == Some(A.Proposal(A.Swap, "CSPR/sCSPR", "sCSPR", "100", "99", A.Missing, None))
              && |CycleStep(env, Initial(now), c).runs| == 1
  {
    var answer := A.Decision(A.Swap, "sCSPR", "99", A.Missing);
    var seen := A.Oracle(true, now, None, None, Some(A.Signal(true, A.Score(0.0))), Some(answer));
    var done := X.Oracle(true, X.Returned("", true), None, X.Returned("", true), true, now);
    var c := CycleInput(A.Input("100", None, false), seen, done);
    UnscoredPassesGate(env, Initial(now), c);
  }

  /** A first cycle in which the heuristic acts on a paid signal whose confidence is, say, "n/a". */
  lemma NoNumberRuns(env: A.Env, now: nat)
    requires env.limits.maxRevertStreak > 0 && env.limits.maxDrawdownPct >= 0.0
    ensures exists c: CycleInput ::
              && c.input.forceHeuristic && c.seen.signal == Some(A.Signal(true, A.NotANumber))
              && Proposal(env, Initial(now), c)
                 == Some(A.Proposal(A.AddLiquidity, "CSPR/sCSPR", "sCSPR", "100", "0", A.NotANumber, None))
              && |CycleStep(env, Initial(now), c).runs| == 1
  {
    var seen := A.Oracle(true, now, None, None, Some(A.Signal(true, A.NotANumber)), None);
    var done := X.Oracle(true, X.Returned("", true), None, X.Returned("", true), true, now);
    var c := CycleInput(A.Input("100", None, true), seen, done);
    UnscoredPassesGate(env, Initial(now), c);
  }

  // ---- accounting over runs ----

  function One(r: X.RunRecord): nat { if r.recorded then 1 else 0 }
  function RecordedAmount(r: X.RunRecord): nat { if r.recorded then r.amount else 0 }

  ghost predicate Safe(env: A.Env, r: X.RunRecord) {
    && |r.submitted| <= 1
    && (r.hold ==> r.submitted == [])
    && (forall k :: 0 <= k < |r.submitted| && r.submitted[k].Delegation? ==> r.submitted[k].motes >= env.minStakeMotes)
    && (r.recorded ==> r.outcome == X.Succeeded && |r.submitted| == 1)
  }

  ghost predicate Accounted(env: A.Env, s: AgentState) {
    && s.risk.totalStrategies == |s.runs| == |s.audit|
    && s.risk.totalStrategies == s.risk.totalSuccesses + s.risk.totalReverts
    && s.funds.positionsOpened == SumBy(s.runs, One)
    && s.funds.custodianMotes == SumBy(s.runs, RecordedAmount)
    && forall i :: 0 <= i < |s.runs| ==> Safe(env, s.runs[i]) && s.runs[i].outcome == s.audit[i].outcome
  }

  lemma ExecuteAccounted(env: A.Env, s: AgentState, p: A.Proposal, o: X.Oracle)
    requires Accounted(env, s)
    ensures Accounted(env, Execute(env, s, p, o))
  {
    var r := X.Classify(env, p, o);
    X.RunIsSafe(env, p, o);
    SumByAppend(s.runs, r, One);
    SumByAppend(s.runs, r, RecordedAmount);
  }

  lemma {:induction false} AccountedKept(env: A.Env, s: AgentState, ops: seq<Op>)
    requires Accounted(env, s)
    ensures Accounted(env, Run(env, s, ops))
    decreases |ops|
  {
    if ops != [] {
      if ops[0].Cycle? && Starts(env, s, ops[0].c) {
        ExecuteAccounted(env, s, Proposal(env, s, ops[0].c).value, ops[0].c.done);
      }
      AccountedKept(env, Step(env, s, ops[0]), ops[1..]);
    }
  }

  /**
   Over every run: lifetime strategies = executor runs = audit entries; each run submits at most one transaction, a hold
   none, no stake below the minimum; and the cached custody is the sum over exactly the recorded, successful runs.
   */
  lemma RunAccounted(env: A.Env, now: nat, ops: seq<Op>)
    ensures Accounted(env, Run(env, Initial(now), ops))
  {
    AccountedKept(env, Initial(now), ops);
  }

  /** The operator's reset clears streak and cooldown, an outside snapshot moves the values; neither anything else. */
  lemma OperatorOps(env: A.Env, s: AgentState, v: nat)
    ensures Step(env, s, OperatorReset) == s.(risk := s.risk.(revertStreak := 0, trippedUntil := 0))
    ensures Step(env, s, OutsideSnapshot(v))
         == s.(risk := s.risk.(lastValueMotes := v, peakMotes := if v > s.risk.peakMotes then v else s.risk.peakMotes))
  {
  }

  /** After a reset the breaker is tripped only by the drawdown. */
  lemma ResetReopens(env: A.Env, s: AgentState, now: nat)
    requires env.limits.maxRevertStreak > 0
    ensures Tripped(Step(env, s, OperatorReset).risk, env.limits, now) <==>
            DrawdownPct(s.risk) > env.limits.maxDrawdownPct
  {
  }

  /** A cycle that starts adds one run and one audit entry, which repeats the proposal; any other changes nothing. */
  lemma CycleIsLogged(env: A.Env, s: AgentState, c: CycleInput)
    ensures var s' := CycleStep(env, s, c);
            if Starts(env, s, c) then
              var p := Proposal(env, s, c).value;
              && s'.runs == s.runs + [X.Classify(env, p, c.done)]
              && |s'.audit| == |s.audit| + 1 && s'.audit[..|s.audit|] == s.audit
              && s'.audit[|s.audit|].action == p.action && s'.audit[|s.audit|].amountIn == p.amountIn
              && s'.audit[|s.audit|].outcome == s'.runs[|s.runs|].outcome
              && s'.risk.totalStrategies == s.risk.totalStrategies + 1
            else s' == s
  {
  }

  // ---- two ways the agent stops itself ----

  /** A cycle the dashboard forces to hold, in which nothing throws. */
  predicate ForcedHold(env: A.Env, c: CycleInput) {
    && c.input.force == Some(A.ForceHold) && c.seen.keysOk && c.done.keysOk
    && A.Answers(env, c.input, c.seen)
  }

  lemma ForcedHoldStep(env: A.Env, s: AgentState, c: CycleInput)
    requires ForcedHold(env, c) && !Tripped(s.risk, env.limits, c.seen.now)
    ensures Starts(env, s, c)
    ensures CycleStep(env, s, c).risk == AfterOutcome(s.risk, Failed, c.done.at, env.limits.maxRevertStreak)
  {
    StartsIff(env, s, c);
    A.ForcedPassesGate(env, c.input, c.seen);
    assert X.IsHold(Proposal(env, s, c).value);
  }

  /** A skipped run counts as a failure, so forcing `maxRevertStreak` holds in a row latches the breaker. */
  lemma {:induction false} ForcedHoldsLatch(env: A.Env, s: AgentState, ops: seq<Op>)
    requires DrawdownPct(s.risk) <= env.limits.maxDrawdownPct && CooldownImpliesStreak(env, s)
    requires s.risk.revertStreak < env.limits.maxRevertStreak
    requires |ops| == env.limits.maxRevertStreak - s.risk.revertStreak
    requires forall i :: 0 <= i < |ops| ==> ops[i].Cycle? && ForcedHold(env, ops[i].c)
    ensures forall now: nat :: Tripped(Run(env, s, ops).risk, env.limits, now)
    decreases |ops|
  {
    ForcedHoldStep(env, s, ops[0].c);
    var s' := Step(env, s, ops[0]);
    if s'.risk.revertStreak < env.limits.maxRevertStreak {
      ForcedHoldsLatch(env, s', ops[1..]);
    } else {
      assert ops[1..] == [];
    }
  }

  /**
   A stake, like a liquidity deposit decided by the heuristic, promises "0" out, and that is what the portfolio snapshot
   records. Its success trips the drawdown for good if and only if an earlier snapshot was positive.
   */
  lemma ZeroOutSuccessLatches(env: A.Env, s: AgentState, p: A.Proposal, o: X.Oracle)
    requires 0.0 < env.limits.maxDrawdownPct < 100.0
    requires X.Classify(env, p, o).outcome == X.Succeeded && p.minAmountOut == "0"
    ensures DrawdownPct(Execute(env, s, p, o).risk) > env.limits.maxDrawdownPct <==> s.risk.peakMotes > 0
  {
    assert ParseNat("0") == Some(0) by {
      assert Digits(0) == "0";
      PrintThenRead(0);
    }
    var peak := s.risk.peakMotes;
    if peak > 0 {
      ModUnique(peak * 10_000, peak, 10_000, 0);
    }
  }

  // ---- the program ----

  class Orchestrator {
    const executor: X.Executor

    ghost predicate Valid()
      reads this, executor, executor.guard
    {
      executor.Valid()
    }

    ghost function State(): AgentState
      reads this, executor, executor.guard, executor.funds
    {
      AgentState(executor.guard.file, executor.funds.cache, executor.runs, executor.audit)
    }

    constructor (env: A.Env, now: nat)
      ensures Valid() && executor.env == env && State() == Initial(now)
      ensures fresh(executor) && fresh(executor.guard) && fresh(executor.funds)
    {
      executor := new X.Executor(env, now);
    }

    /** One `runCycle`. The result is the proposal, or None if the analyst threw, and whether the executor ran. */
    method RunCycle(c: CycleInput) returns (proposal: Option<A.Proposal>, executed: bool)
      requires Valid()
      modifies executor, executor.guard, executor.funds
      ensures Valid()
      ensures proposal == Proposal(executor.env, old(State()), c)
      ensures executed == Starts(executor.env, old(State()), c)
      ensures State() == CycleStep(executor.env, old(State()), c)
    {
      executed := false;
      proposal := A.RunAnalyst(executor.env, executor.guard, c.input, c.seen);
      if proposal == None {
        return;
      }
      if A.Less(proposal.value.confidence, 50.0) {
        return;
      }
      if !c.done.keysOk {
        return;
      }
      executor.RunExecutor(proposal.value, c.done);
      executed := true;
    }

    method ResetCircuitBreaker()
      requires Valid()
      modifies executor.guard
      ensures Valid() && State() == Step(executor.env, old(State()), OperatorReset)
    {
      executor.guard.ResetCircuitBreaker();
    }

    method UpdatePortfolioSnapshot(value: nat)
      requires Valid()
      modifies executor.guard
      ensures Valid() && State() == Step(executor.env, old(State()), OutsideSnapshot(value))
    {
      executor.guard.UpdatePortfolioSnapshot(value);
    }
  }
}
