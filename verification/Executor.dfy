/**
 The executor: one run turns a proposal into at most one strategy transaction, an outcome for the risk guard,
 and, if the transaction succeeded and the vault recorded it, an entry in the fund cache.
 The source steers with exceptions; Classify says what comes of every proposal without them.
 */
module Executor {
  import opened Prelude
  import opened Decimal
  import opened RiskGuard
  import opened FundState
  import opened Analyst

  const MCP_SCALE: nat := 1_000_000_000

  datatype Outcome = Succeeded | RevertedOnChain | FailedRun | Skipped

  datatype Submission =
    | Delegation(motes: nat, validator: string)
    | DexTransaction(action: Action, tokenOut: string, scaled: nat, minAmountOut: string)

  /** A call that may throw any message at all, also one of the two the executor throws itself. */
  datatype Reply = Threw(message: string) | Returned(txHash: string, success: bool)

  datatype Oracle = Oracle(
    keysOk: bool, delegate: Reply, buildThrows: Option<string>, submit: Reply, recordOk: bool, at: nat)

  /** What one run did. */
  datatype RunRecord = RunRecord(
    hold: bool, submitted: seq<Submission>, outcome: Outcome, recorded: bool, amount: nat)

  function ToGuard(o: Outcome): StrategyOutcome {
    match o
    case Succeeded => Success
    case RevertedOnChain => Reverted
    case FailedRun => Failed
    case Skipped => Failed
  }

  predicate IsHold(p: Proposal) {
    p.amountIn == "0" || p.pair == "HOLD"
  }

  /** The validator a stake goes to: the proposal's, unless it is missing or the text "undefined". */
  function Target(env: Env, p: Proposal): string {
    if p.validatorPubKey.Some? && p.validatorPubKey.value != "" && p.validatorPubKey.value != "undefined"
    then p.validatorPubKey.value else env.fallbackValidator
  }

  predicate HasValidator(p: Proposal) {
    p.validatorPubKey.Some? && p.validatorPubKey.value != ""
  }

  /** The transaction built on the exchange; to compound is to add liquidity. */
  function Exchange(p: Proposal, scaled: nat): Submission {
    DexTransaction(if p.action == Compound then AddLiquidity else p.action, p.tokenOut, scaled, p.minAmountOut)
  }

  function Ran(submitted: seq<Submission>, r: Reply, recordable: bool, recordOk: bool, amount: nat): RunRecord {
    match r
    case Threw(_) => RunRecord(false, submitted, FailedRun, false, amount)
    case Returned(_, success) =>
      var outcome := if success then Succeeded else RevertedOnChain;
      RunRecord(false, submitted, outcome, success && recordable && recordOk, amount)
  }

  function Classify(env: Env, p: Proposal, o: Oracle): RunRecord {
    if IsHold(p) then RunRecord(true, [], Skipped, false, 0)
    else
      match ParseNat(p.amountIn)
      case None => RunRecord(false, [], FailedRun, false, 0)
      case Some(amount) =>
        if p.action == Stake then
          if amount < env.minStakeMotes then RunRecord(false, [], FailedRun, false, amount)
          else Ran([Delegation(amount, Target(env, p))], o.delegate, HasValidator(p), o.recordOk, amount)
        else if o.buildThrows.Some? then RunRecord(false, [], FailedRun, false, amount)
        else Ran([Exchange(p, amount / MCP_SCALE)], o.submit, true, o.recordOk, amount)
  }

  /** `minAmountOut || amountIn`, read as a number; text that is none is caught and skips the snapshot. */
  function SnapshotValue(p: Proposal): Option<nat> {
    ParseNat(if p.minAmountOut != "" then p.minAmountOut else p.amountIn)
  }

  function RiskAfter(s: RiskState, outcome: Outcome, p: Proposal, at: nat, maxStreak: nat): RiskState {
    var s' := AfterOutcome(s, ToGuard(outcome), at, maxStreak);
    if outcome == Succeeded && SnapshotValue(p).Some? then AfterSnapshot(s', SnapshotValue(p).value) else s'
  }

  function FundsAfter(c: FundState, r: RunRecord, at: nat): FundState {
    if r.recorded then Apply(Apply(c, PositionOpened, at), CustodianDeposit(r.amount), at) else c
  }

  datatype AuditEntry = AuditEntry(action: Action, amountIn: string, outcome: Outcome)

  class Executor {
    const env: Env
    const guard: RiskGuard
    const funds: FundCache
    ghost var runs: seq<RunRecord>
    ghost var submissions: seq<Submission>
    ghost var audit: seq<AuditEntry>

    ghost predicate Valid()
      reads this, guard
    {
      guard.Valid() && guard.limits == env.limits
    }

    constructor (env: Env, now: nat)
      ensures Valid() && fresh(guard) && fresh(funds) && this.env == env
      ensures guard.log == [] && guard.file == DEFAULT_STATE && funds.cache == DefaultState(now)
      ensures runs == [] && submissions == [] && audit == []
    {
      this.env := env;
      guard := new RiskGuard(env.limits);
      funds := new FundCache(now);
      runs, submissions, audit := [], [], [];
    }

    /**
     The try block of the source. A throw is a return with a message; `outcome` then holds whatever it was set to.
     */
    method TryStrategy(p: Proposal, o: Oracle) returns (outcome: Outcome, thrown: Option<string>)
      modifies this`submissions, funds
      ensures var r := Classify(env, p, o);
              && submissions == old(submissions) + r.submitted
              && funds.cache == FundsAfter(old(funds.cache), r, o.at)
              && (if thrown.Some? && thrown.value != "stake-handled" && thrown.value != "hold-short-circuit"
                  then r.outcome == FailedRun else r.outcome == outcome)
    {
      outcome := FailedRun;
      if p.amountIn == "0" || p.pair == "HOLD" {
        outcome := Skipped;
        return outcome, Some("hold-short-circuit");
      }
      if p.action == Stake {
        var validatorPk := Target(env, p);
        var amountBig := ParseNat(p.amountIn);
        if amountBig == None {
          return outcome, Some("SyntaxError");
        }
        if amountBig.value < env.minStakeMotes {
          return outcome, Some("stake amount below minimum");
        }
        submissions := submissions + [Delegation(amountBig.value, validatorPk)];
        if o.delegate.Threw? {
          return outcome, Some(o.delegate.message);
        }
        outcome := if o.delegate.success then Succeeded else RevertedOnChain;
        if outcome == Succeeded && HasValidator(p) && o.recordOk {
          funds.RecordPositionOpened(o.at);
          funds.RecordCustodianDeposit(amountBig.value, o.at);
        }
        return outcome, Some("stake-handled");
      }
      var amountBig := ParseNat(p.amountIn);
      if amountBig == None {
        return outcome, Some("SyntaxError");
      }
      var mcpAmountIn := amountBig.value / MCP_SCALE;
      if o.buildThrows.Some? {
        return outcome, Some(o.buildThrows.value);
      }
      var built := if p.action == Compound then AddLiquidity else p.action;
      submissions := submissions + [DexTransaction(built, p.tokenOut, mcpAmountIn, p.minAmountOut)];
      if o.submit.Threw? {
        return outcome, Some(o.submit.message);
      }
      outcome := if o.submit.success then Succeeded else RevertedOnChain;
      if o.submit.success && o.recordOk {
        funds.RecordPositionOpened(o.at);
        funds.RecordCustodianDeposit(amountBig.value, o.at);
      }
      thrown := None;
    }

    method TellGuard(p: Proposal, outcome: Outcome, at: nat)
      requires Valid()
      modifies guard
      ensures Valid() && guard.file == RiskAfter(old(guard.file), outcome, p, at, env.limits.maxRevertStreak)
    {
      guard.RecordStrategyOutcome(
        if outcome == Succeeded then Success else if outcome == RevertedOnChain then Reverted else Failed, at);
      if outcome == Succeeded {
        var value := ParseNat(if p.minAmountOut != "" then p.minAmountOut else p.amountIn);
        if value.Some? {
          guard.UpdatePortfolioSnapshot(value.value);
        }
      }
    }

    method RunExecutor(p: Proposal, o: Oracle)
      requires Valid() && o.keysOk
      modifies this, guard, funds
      ensures Valid()
      ensures var r := Classify(env, p, o);
              && runs == old(runs) + [r]
              && submissions == old(submissions) + r.submitted
              && audit == old(audit) + [AuditEntry(p.action, p.amountIn, r.outcome)]
              && funds.cache == FundsAfter(old(funds.cache), r, o.at)
              && guard.file == RiskAfter(old(guard.file), r.outcome, p, o.at, env.limits.maxRevertStreak)
    {
      var outcome, thrown := TryStrategy(p, o);
      if thrown.Some? {
        if thrown.value == "stake-handled" {
        } else if thrown.value == "hold-short-circuit" {
        } else {
          outcome := FailedRun;
        }
      }
      TellGuard(p, outcome, o.at);
      audit := audit + [AuditEntry(p.action, p.amountIn, outcome)];
      runs := runs + [Classify(env, p, o)];
    }
  }

  // ---- one run ----

  /**
   At most one submission per run and none on a hold; nothing below the minimum is ever delegated; only a run that
   submitted and succeeded is recorded; and magic messages thrown by a service change no outcome.
   */
  lemma RunIsSafe(env: Env, p: Proposal, o: Oracle)
    ensures var r := Classify(env, p, o);
            && |r.submitted| <= 1
            && (r.hold ==> r.submitted == [] && r.outcome == Skipped && !r.recorded)
            && (forall k :: 0 <= k < |r.submitted| && r.submitted[k].Delegation? ==>
                  r.submitted[k].motes == r.amount >= env.minStakeMotes)
            && (r.recorded ==> r.outcome == Succeeded && |r.submitted| == 1 && ParseNat(p.amountIn) == Some(r.amount))
            && (r.outcome == Succeeded ==> |r.submitted| == 1)
  {
  }

  /** A run holds iff the proposal says so, by its amount or by its pair. */
  lemma HoldsIff(env: Env, p: Proposal, o: Oracle)
    ensures var r := Classify(env, p, o);
            && (r.hold <==> p.amountIn == "0" || p.pair == "HOLD")
            && (r.outcome == Skipped <==> r.hold)
  {
  }

  /** The amount is a number, and the run does not hold. */
  predicate Moves(p: Proposal) {
    p.amountIn != "0" && p.pair != "HOLD" && forall i :: 0 <= i < |p.amountIn| ==> '0' <= p.amountIn[i] <= '9'
  }

  /**
   When a run submits, and what: a stake from the minimum on, of the full amount, to the proposal's validator or else
   the fallback; anything else if it can be built, of the amount in whole units of 10^9.
   */
  lemma SubmitsIff(env: Env, p: Proposal, o: Oracle)
    ensures var r := Classify(env, p, o);
            && (r.submitted != [] <==>
                  && Moves(p)
                  && if p.action == Stake then Value(p.amountIn) >= env.minStakeMotes else o.buildThrows == None)
            && (r.submitted != [] ==> r.amount == Value(p.amountIn))
            && (r.submitted != [] && p.action == Stake ==>
                  exists validator ::
                    && r.submitted == [Delegation(Value(p.amountIn), validator)]
                    && (p.validatorPubKey in {None, Some(""), Some("undefined")} ==> validator == env.fallbackValidator)
                    && (p.validatorPubKey !in {None, Some(""), Some("undefined")} ==>
                          p.validatorPubKey == Some(validator)))
            && (r.submitted != [] && p.action != Stake ==>
                  exists scaled: nat, built ::
                    && r.submitted == [DexTransaction(built, p.tokenOut, scaled, p.minAmountOut)]
                    && scaled * 1_000_000_000 <= Value(p.amountIn) < scaled * 1_000_000_000 + 1_000_000_000
                    && built == if p.action == Compound then AddLiquidity else p.action)
  {
    var r := Classify(env, p, o);
    if r.submitted != [] {
      var amount := Value(p.amountIn);
      if p.action == Stake {
        assert r.submitted == [Delegation(amount, Target(env, p))];
      } else {
        var scaled := amount / 1_000_000_000;
        assert r.submitted == [Exchange(p, scaled)];
        assert scaled * 1_000_000_000 <= amount < scaled * 1_000_000_000 + 1_000_000_000;
      }
    }
  }

  /** What becomes of a submission is what its reply says; what neither submits nor holds has failed. */
  lemma OutcomeFollowsReply(env: Env, p: Proposal, o: Oracle)
    ensures var r, reply := Classify(env, p, o), if p.action == Stake then o.delegate else o.submit;
            && (r.submitted != [] ==>
                  && (r.outcome == Succeeded <==> reply.Returned? && reply.success)
                  && (r.outcome == RevertedOnChain <==> reply.Returned? && !reply.success)
                  && (r.outcome == FailedRun <==> reply.Threw?))
            && (r.submitted == [] && !r.hold ==> r.outcome == FailedRun)
  {
  }

  /** A run is recorded iff it succeeded and the vault took the record; a stake without a validator is never offered. */
  lemma RecordedIff(env: Env, p: Proposal, o: Oracle)
    ensures var r := Classify(env, p, o);
            r.recorded <==>
              && r.outcome == Succeeded && o.recordOk
              && (p.action != Stake || (p.validatorPubKey.Some? && p.validatorPubKey.value != ""))
  {
  }

  /**
   What a run leaves behind: the guard counts a success, or else a failure, and values the portfolio at the minimum out,
   or at the amount in where there is none; the cache gains one position of the run's amount iff it is recorded.
   */
  lemma RunLeavesBehind(env: Env, p: Proposal, o: Oracle, s: RiskState, c: FundState)
    ensures var r := Classify(env, p, o);
            var s', c' := RiskAfter(s, r.outcome, p, o.at, env.limits.maxRevertStreak), FundsAfter(c, r, o.at);
            var text := if p.minAmountOut == "" then p.amountIn else p.minAmountOut;
            && s'.totalStrategies == s.totalStrategies + 1
            && (r.outcome == Succeeded ==>
                  && s'.totalSuccesses == s.totalSuccesses + 1 && s'.totalReverts == s.totalReverts
                  && s'.revertStreak == 0 && s'.trippedUntil == s.trippedUntil
                  && (ParseNat(text).Some? ==>
                        && s'.lastValueMotes == ParseNat(text).value
                        && s'.peakMotes == Max(s.peakMotes, s'.lastValueMotes))
                  && (ParseNat(text).None? ==>
                        s'.lastValueMotes == s.lastValueMotes && s'.peakMotes == s.peakMotes))
            && (r.outcome != Succeeded ==>
                  && s'.totalSuccesses == s.totalSuccesses && s'.totalReverts == s.totalReverts + 1
                  && s'.revertStreak == s.revertStreak + 1
                  && s'.trippedUntil == (if s'.revertStreak >= env.limits.maxRevertStreak then o.at + 600_000
                                         else s.trippedUntil)
                  && s'.lastValueMotes == s.lastValueMotes && s'.peakMotes == s.peakMotes)
            && c' == (if r.recorded then
                        c.(positionsOpened := c.positionsOpened + 1, custodianMotes := c.custodianMotes + r.amount,
                           lastUpdated := o.at)
                      else c)
  {
  }
}
