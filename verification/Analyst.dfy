/**
 The analyst: from a revenue event and whatever the outside services answer, a strategy proposal.
 Every service is an oracle whose answer is arbitrary; `None` is a call that threw.
 */
module Analyst {
  import opened Prelude
  import opened Decimal
  import opened RiskGuard

  datatype Action = Swap | AddLiquidity | RemoveLiquidity | Stake | Compound

  datatype Force = ForceSwap | ForceAddLiquidity | ForceRemoveLiquidity | ForceCompound | ForceHold | ForceStake

  datatype Env = Env(
    limits: Limits, minStakeMotes: nat, llmConfigured: bool,
    stakingValidator: Option<string>, fallbackValidator: string)

  /**
   A confidence as it stands in an answer nobody checks: left out, null, something that converts to no number,
   or something that converts to a score.
   */
  datatype Confidence = Missing | Null | NotANumber | Score(value: real)

  datatype Proposal = Proposal(
    action: Action, pair: string, tokenOut: string, amountIn: string, minAmountOut: string,
    confidence: Confidence, validatorPubKey: Option<string>)

  datatype Decision = Decision(action: Action, tokenOut: string, minAmountOut: string, confidence: Confidence)

  datatype Quote = Quote(amountOut: string, priceImpactPct: real, pair: string)
  datatype Signal = Signal(bullish: bool, confidence: Confidence)

  datatype Input = Input(amount: string, force: Option<Force>, forceHeuristic: bool)

  datatype Oracle = Oracle(
    keysOk: bool, now: nat, selectedPair: Option<(string, string)>, quote: Option<Quote>,
    signal: Option<Signal>, llm: Option<Decision>)

  /** Half a percent off, in BigInt arithmetic; throws on text that is no number. */
  function ApplySlippage(amount: string): Option<string> {
    match ParseNat(amount)
    case None => None
    case Some(v) => Some(Digits(Quotient(v * 9_950, 10_000)))
  }

  /** `c ?? d`: null counts as left out. */
  function OrElse(c: Confidence, d: real): Confidence {
    if c.Missing? || c.Null? then Score(d) else c
  }

  /** Math.max; what is no number stays none. */
  function AtLeast(c: Confidence, lo: real): Confidence {
    match c
    case Missing => NotANumber
    case Null => Score(if 0.0 < lo then lo else 0.0)
    case NotANumber => NotANumber
    case Score(v) => Score(if v < lo then lo else v)
  }

  /** Math.min */
  function AtMost(c: Confidence, hi: real): Confidence {
    match c
    case Missing => NotANumber
    case Null => Score(if hi < 0.0 then hi else 0.0)
    case NotANumber => NotANumber
    case Score(v) => Score(if hi < v then hi else v)
  }

  function Clamp(c: Confidence, lo: real, hi: real): Confidence {
    AtLeast(AtMost(c, hi), lo)
  }

  /** `c < limit`, which is false of anything that is no number. */
  predicate Less(c: Confidence, limit: real) {
    match c
    case Missing => false
    case Null => 0.0 < limit
    case NotANumber => false
    case Score(v) => v < limit
  }

  function DecideHeuristic(q: Quote, s: Signal, tokenOut: string): Option<Decision> {
    var confidence := Clamp(OrElse(s.confidence, 0.0), 0.0, 100.0);
    if q.priceImpactPct < 1.0 && s.bullish then Some(Decision(AddLiquidity, tokenOut, "0", confidence))
    else match ApplySlippage(q.amountOut)
      case None => None
      case Some(min) => Some(Decision(Swap, tokenOut, min, confidence))
  }

  function BuildHoldProposal(): Proposal {
    Proposal(Swap, "HOLD", "CSPR", "0", "0", Score(0.0), None)
  }

  function Validator(env: Env): string {
    match env.stakingValidator case Some(v) => v case None => env.fallbackValidator
  }

  function SelectedPair(o: Oracle): (string, string) {
    if o.selectedPair.Some? then o.selectedPair.value else ("CSPR/sCSPR", "sCSPR")
  }

  function QuoteUsed(inp: Input, o: Oracle): Quote {
    if o.quote.Some? then o.quote.value else Quote(inp.amount, 0.0, SelectedPair(o).0)
  }

  predicate Heuristic(env: Env, inp: Input) {
    inp.forceHeuristic || !env.llmConfigured
  }

  /** The decision before any forced action. */
  function FreeDecision(env: Env, inp: Input, o: Oracle, q: Quote, tokenOut: string): Option<Decision> {
    if o.signal == None then None
    else if Heuristic(env, inp) then DecideHeuristic(q, o.signal.value, tokenOut)
    else o.llm
  }

  function Forced(f: Force): Action {
    match f
    case ForceSwap => Swap
    case ForceAddLiquidity => AddLiquidity
    case ForceRemoveLiquidity => RemoveLiquidity
    case ForceCompound => AddLiquidity
    case ForceHold => Swap
    case ForceStake => Stake
  }

  /** What a forced action makes of the decision. */
  function Override(env: Env, f: Force, amountIn: string, d: Decision, quotedOut: string, tokenOut: string)
    : Option<Decision>
  {
    var confidence := AtLeast(OrElse(d.confidence, 60.0), 60.0);
    match f
    case ForceHold => Some(Decision(Swap, d.tokenOut, "0", confidence))
    case ForceStake =>
      (match ParseNat(amountIn)
       case None => None
       case Some(a) =>
         if a >= env.minStakeMotes then Some(Decision(Stake, "CSPR", "0", confidence))
         else match ApplySlippage(quotedOut)
           case None => None
           case Some(min) => Some(Decision(Swap, tokenOut, min, confidence)))
    case _ =>
      (match ApplySlippage(quotedOut)
       case None => None
       case Some(min) => Some(Decision(Forced(f), tokenOut, min, confidence)))
  }

  /** The proposal, given whether the breaker is tripped; None if the analyst threw. */
  function Propose(env: Env, inp: Input, o: Oracle, tripped: bool): Option<Proposal> {
    if !o.keysOk then None
    else if tripped then Some(BuildHoldProposal())
    else
      var tokenOut, q := SelectedPair(o).1, QuoteUsed(inp, o);
      match FreeDecision(env, inp, o, q, tokenOut)
      case None => None
      case Some(free) =>
        var held := inp.force == Some(ForceHold);
        var decided :=
          if inp.force.Some? then Override(env, inp.force.value, inp.amount, free, q.amountOut, tokenOut)
          else Some(free);
        match decided
        case None => None
        case Some(d) =>
          Some(Proposal(
            d.action,
            if d.action == Stake then "CSPR/staked" else if held then "HOLD" else q.pair,
            d.tokenOut, if held then "0" else inp.amount, d.minAmountOut, d.confidence,
            if d.action == Stake then Some(Validator(env)) else None))
  }

  method RunAnalyst(env: Env, guard: RiskGuard, inp: Input, o: Oracle) returns (r: Option<Proposal>)
    ensures r == Propose(env, inp, o, Tripped(guard.file, guard.limits, o.now))
  {
    if !o.keysOk {
      return None;
    }
    var amountIn := inp.amount;
    var cb := guard.CheckCircuitBreaker(o.now);
    if cb.tripped {
      return Some(BuildHoldProposal());
    }
    var selectedPairLabel, selectedTokenOut := "CSPR/sCSPR", "sCSPR";
    if o.selectedPair.Some? {
      selectedPairLabel, selectedTokenOut := o.selectedPair.value.0, o.selectedPair.value.1;
    }
    var quote := Quote(amountIn, 0.0, selectedPairLabel);
    if o.quote.Some? {
      quote := o.quote.value;
    }
    if o.signal == None {
      return None;
    }
    var decided := o.llm;
    if inp.forceHeuristic || !env.llmConfigured {
      decided := DecideHeuristic(quote, o.signal.value, selectedTokenOut);
    }
    if decided == None {
      return None;
    }
    var decision := decided.value;
    if inp.force.Some? {
      var floor := AtLeast(OrElse(decision.confidence, 60.0), 60.0);
      if inp.force.value == ForceHold {
        decision := Decision(Swap, decision.tokenOut, "0", floor);
        amountIn := "0";
        quote := quote.(pair := "HOLD");
      } else {
        var stakeable := false;
        if inp.force.value == ForceStake {
          var amountBig := ParseNat(amountIn);
          if amountBig == None {
            return None;
          }
          stakeable := amountBig.value >= env.minStakeMotes;
        }
        if stakeable {
          decision := Decision(Stake, "CSPR", "0", floor);
        } else {
          var min := ApplySlippage(quote.amountOut);
          if min == None {
            return None;
          }
          var action := if inp.force.value == ForceStake then Swap else Forced(inp.force.value);
          decision := Decision(action, selectedTokenOut, min.value, floor);
        }
      }
    }
    var pairLabel, validatorPk := quote.pair, None;
    if decision.action == Stake {
      pairLabel := "CSPR/staked";
      validatorPk := Some(Validator(env));
    }
    r := Some(Proposal(
      decision.action, pairLabel, decision.tokenOut, amountIn, decision.minAmountOut,
      decision.confidence, validatorPk));
  }

  // ---- what proposals can and cannot be ----

  /** A tripped breaker never gets past the confidence gate. */
  lemma TrippedIsGated(env: Env, inp: Input, o: Oracle)
    ensures var r := Propose(env, inp, o, true); r.Some? ==> Gated(r.value)
  {
  }

  /** The confidence gate, `proposal.confidence < 50`. */
  predicate Gated(p: Proposal) {
    Less(p.confidence, 50.0)
  }

  /** The undisturbed decision comes about. */
  predicate Decides(env: Env, inp: Input, o: Oracle) {
    && o.signal.Some?
    && if Heuristic(env, inp) then
         var q := QuoteUsed(inp, o);
         ParseNat(q.amountOut).Some? || (q.priceImpactPct < 1.0 && o.signal.value.bullish)
       else o.llm.Some?
  }

  /** What the dashboard forces, if anything, comes about. */
  predicate Forceable(env: Env, inp: Input, quotedOut: string) {
    match inp.force
    case None => true
    case Some(f) =>
      match f
      case ForceHold => true
      case ForceStake =>
        ParseNat(inp.amount).Some? && (ParseNat(quotedOut).Some? || ParseNat(inp.amount).value >= env.minStakeMotes)
      case _ => ParseNat(quotedOut).Some?
  }

  /** With the breaker untripped and keys in place, the analyst answers, that is, nothing it reads makes it throw. */
  predicate Answers(env: Env, inp: Input, o: Oracle) {
    Decides(env, inp, o) && Forceable(env, inp, QuoteUsed(inp, o).amountOut)
  }

  /** The confidence given by whoever decides: the paid signal or the language model. */
  function Given(env: Env, inp: Input, o: Oracle): Confidence
    requires Answers(env, inp, o)
  {
    if Heuristic(env, inp) then o.signal.value.confidence else o.llm.value.confidence
  }

  /** What was given is no number, or the language model, unforced, left it out. */
  predicate Unscored(env: Env, inp: Input, given: Confidence) {
    given == NotANumber || (given == Missing && inp.force == None && !Heuristic(env, inp))
  }

  /** The decider's confidence lets the proposal through: a forced action takes any, the heuristic none left out. */
  predicate Confident(env: Env, inp: Input, given: Confidence) {
    match given
    case NotANumber => true
    case Score(v) => inp.force.Some? || v >= 50.0
    case Missing => inp.force.Some? || !Heuristic(env, inp)
    case Null => inp.force.Some?
  }

  /** The confidence of the proposal. */
  function Final(env: Env, inp: Input, given: Confidence): Confidence {
    var free := if Heuristic(env, inp) then Clamp(OrElse(given, 0.0), 0.0, 100.0) else given;
    if inp.force.Some? then AtLeast(OrElse(free, 60.0), 60.0) else free
  }

  lemma FreeIff(env: Env, inp: Input, o: Oracle)
    ensures var d := FreeDecision(env, inp, o, QuoteUsed(inp, o), SelectedPair(o).1);
            && (d.Some? <==> Decides(env, inp, o))
            && (d.Some? && inp.force == None && Answers(env, inp, o) ==>
                  d.value.confidence == Final(env, inp, Given(env, inp, o)))
            && (d.Some? && inp.force.Some? && Answers(env, inp, o) ==>
                  AtLeast(OrElse(d.value.confidence, 60.0), 60.0) == Final(env, inp, Given(env, inp, o)))
  {
  }

  lemma OverrideIff(env: Env, inp: Input, d: Decision, quotedOut: string, tokenOut: string)
    requires inp.force.Some?
    ensures var r := Override(env, inp.force.value, inp.amount, d, quotedOut, tokenOut);
            && (r.Some? <==> Forceable(env, inp, quotedOut))
            && (r.Some? ==> r.value.confidence == AtLeast(OrElse(d.confidence, 60.0), 60.0))
  {
  }

  /** When there is a proposal, and with what confidence. */
  lemma ProposesIff(env: Env, inp: Input, o: Oracle)
    ensures var r := Propose(env, inp, o, false);
            && (r.Some? <==> o.keysOk && Answers(env, inp, o))
            && (r.Some? ==> r.value.confidence == Final(env, inp, Given(env, inp, o)))
  {
    var q, tokenOut := QuoteUsed(inp, o), SelectedPair(o).1;
    var free := FreeDecision(env, inp, o, q, tokenOut);
    FreeIff(env, inp, o);
    if inp.force.Some? && free.Some? {
      OverrideIff(env, inp, free.value, q.amountOut, tokenOut);
    }
  }

  /** Which confidences get through the gate, and which of them do so without being a score of at least 50. */
  lemma FinalPassesIff(env: Env, inp: Input, given: Confidence)
    ensures !Less(Final(env, inp, given), 50.0) <==> Confident(env, inp, given)
    ensures Confident(env, inp, given) && !Unscored(env, inp, given) ==>
              Final(env, inp, given).Score? && Final(env, inp, given).value >= 50.0
    ensures Unscored(env, inp, given) ==> Confident(env, inp, given) && !Final(env, inp, given).Score?
  {
  }

  /** A forced action, if it yields a proposal, passes the gate; a forced stake is a stake iff the amount suffices. */
  lemma ForcedPassesGate(env: Env, inp: Input, o: Oracle)
    requires inp.force.Some?
    ensures var r := Propose(env, inp, o, false);
            r.Some? ==>
              && !Gated(r.value)
              && (inp.force.value == ForceHold ==>
                    && r.value.amountIn == "0" && r.value.pair == "HOLD"
                    && r.value.minAmountOut == "0" && r.value.action == Swap)
              && (r.value.action == Stake <==>
                    && inp.force.value == ForceStake
                    && ParseNat(inp.amount).Some? && ParseNat(inp.amount).value >= env.minStakeMotes)
  {
  }

  // ---- what a proposal says ----

  /** `least` is the text of `quoted` less half a percent, rounded down. */
  ghost predicate HalfPercentOff(quoted: string, least: string) {
    && AllDigits(quoted)
    && exists w: nat :: least == Digits(w) && w * 10_000 <= Value(quoted) * 9_950 < w * 10_000 + 10_000
  }

  lemma SlippageIsHalfPercent(quoted: string)
    ensures match ApplySlippage(quoted)
            case None => !AllDigits(quoted)
            case Some(least) => HalfPercentOff(quoted, least)
  {
    if AllDigits(quoted) {
      var w := Quotient(Value(quoted) * 9_950, 10_000);
      assert w * 10_000 <= Value(quoted) * 9_950 < w * 10_000 + 10_000;
    }
  }

  /** Fixed before anyone decides: without a quote the amount itself is quoted, without a pair it is CSPR/sCSPR. */
  predicate Basis(inp: Input, o: Oracle, quoted: string, pair: string, impact: real, tokenOut: string) {
    && (o.quote.Some? ==> o.quote.value == Quote(quoted, impact, pair))
    && (o.quote.None? ==> quoted == inp.amount && impact == 0.0)
    && (o.quote.None? && o.selectedPair.Some? ==> pair == o.selectedPair.value.0)
    && (o.quote.None? && o.selectedPair.None? ==> pair == "CSPR/sCSPR")
    && tokenOut == if o.selectedPair.Some? then o.selectedPair.value.1 else "sCSPR"
  }

  ghost predicate IsTrade(
    p: Proposal, action: Action, pair: string, tokenOut: string, amountIn: string, quoted: string)
  {
    && p.action == action && p.pair == pair && p.tokenOut == tokenOut && p.amountIn == amountIn
    && HalfPercentOff(quoted, p.minAmountOut) && p.validatorPubKey == None
  }

  predicate IsStake(env: Env, p: Proposal, tokenOut: string, amountIn: string, minAmountOut: string) {
    && p.action == Stake && p.pair == "CSPR/staked" && p.tokenOut == tokenOut
    && p.amountIn == amountIn && p.minAmountOut == minAmountOut
    && (env.stakingValidator.Some? ==> p.validatorPubKey == env.stakingValidator)
    && (env.stakingValidator.None? ==> p.validatorPubKey == Some(env.fallbackValidator))
  }

  /** What each forced action proposes. */
  lemma ForcedProposal(
    env: Env, inp: Input, o: Oracle, p: Proposal, quoted: string, pair: string, impact: real, tokenOut: string)
    requires inp.force.Some? && Propose(env, inp, o, false) == Some(p)
    requires Basis(inp, o, quoted, pair, impact, tokenOut)
    ensures match inp.force.value
            case ForceSwap => IsTrade(p, Swap, pair, tokenOut, inp.amount, quoted)
            case ForceAddLiquidity => IsTrade(p, AddLiquidity, pair, tokenOut, inp.amount, quoted)
            case ForceRemoveLiquidity => IsTrade(p, RemoveLiquidity, pair, tokenOut, inp.amount, quoted)
            case ForceCompound => IsTrade(p, AddLiquidity, pair, tokenOut, inp.amount, quoted)
            case ForceHold =>
              && p.action == Swap && p.pair == "HOLD" && p.amountIn == "0" && p.minAmountOut == "0"
              && p.tokenOut == (if Heuristic(env, inp) then tokenOut else o.llm.value.tokenOut)
            case ForceStake =>
              && AllDigits(inp.amount)
              && if Value(inp.amount) >= env.minStakeMotes then IsStake(env, p, "CSPR", inp.amount, "0")
                 else IsTrade(p, Swap, pair, tokenOut, inp.amount, quoted)
  {
    SlippageIsHalfPercent(quoted);
  }

  /** What the heuristic proposes: liquidity on a low impact and a bullish signal, else a swap. */
  lemma HeuristicProposal(
    env: Env, inp: Input, o: Oracle, p: Proposal, quoted: string, pair: string, impact: real, tokenOut: string)
    requires inp.force == None && (inp.forceHeuristic || !env.llmConfigured) && Propose(env, inp, o, false) == Some(p)
    requires Basis(inp, o, quoted, pair, impact, tokenOut)
    ensures o.signal.Some?
    ensures if impact < 1.0 && o.signal.value.bullish
            then p.action == AddLiquidity && p.pair == pair && p.tokenOut == tokenOut && p.amountIn == inp.amount
                 && p.minAmountOut == "0" && p.validatorPubKey == None
            else IsTrade(p, Swap, pair, tokenOut, inp.amount, quoted)
  {
    SlippageIsHalfPercent(quoted);
  }

  /** What the language model decides is proposed as it stands; a stake gets its own label and validator. */
  lemma ModelProposal(
    env: Env, inp: Input, o: Oracle, p: Proposal, quoted: string, pair: string, impact: real, tokenOut: string)
    requires inp.force == None && !inp.forceHeuristic && env.llmConfigured && Propose(env, inp, o, false) == Some(p)
    requires Basis(inp, o, quoted, pair, impact, tokenOut)
    ensures o.llm.Some?
    ensures var d := o.llm.value;
            if d.action == Stake then IsStake(env, p, d.tokenOut, inp.amount, d.minAmountOut)
            else p == Proposal(d.action, pair, d.tokenOut, inp.amount, d.minAmountOut, d.confidence, None)
  {
  }

  /** A tripped breaker's proposal holds, with a confidence of zero. */
  lemma TrippedProposal(env: Env, inp: Input, o: Oracle)
    ensures Propose(env, inp, o, true)
         == if o.keysOk then Some(Proposal(Swap, "HOLD", "CSPR", "0", "0", Score(0.0), None)) else None
  {
  }

  /** The number a given score ends up as. */
  lemma ScoreOfProposal(env: Env, inp: Input, o: Oracle, p: Proposal, v: real)
    requires Propose(env, inp, o, false) == Some(p) && Answers(env, inp, o) && Given(env, inp, o) == Score(v)
    ensures p.confidence.Score?
    ensures var heuristic := inp.forceHeuristic || !env.llmConfigured;
            p.confidence.value ==
              if inp.force.Some? then (if v < 60.0 then 60.0 else if heuristic && v > 100.0 then 100.0 else v)
              else if heuristic then (if v < 0.0 then 0.0 else if v > 100.0 then 100.0 else v)
              else v
  {
    ProposesIff(env, inp, o);
  }
}
