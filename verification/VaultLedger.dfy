/**
 The agent vault as a ledger: all decisions, all money moved in and out, all positions as opened,
 and all yield claims. Reputation, totals and per-position yield are sums over it.
 */
module VaultLedger {
  import opened Prelude

  datatype Decision = Decision(
    timestamp: U64, agent: Address, action: string, amountIn: U256, amountOut: U256,
    tokenIn: Address, tokenOut: Address, pair: string, txHash: string,
    x402Proof: string, x402Signer: Address, outcome: string, reputationDelta: U64)

  datatype Position = Position(
    id: U64, kind: string, target: string, amount: U256, openedTs: U64, openedTx: string,
    realisedYield: U256, isClosed: bool, closedTs: U64, closedTx: string)

  /** Yield claimed for the position at `index` of the list. */
  datatype Claim = Claim(index: nat, amount: U256)

  datatype Reason =
    | OnlyOwner | NotAgent | BelowMinimum | ZeroAmount | TextTooLong
    | PositionNotFound | InsufficientCustody | Overflow
  datatype Verdict = Done | Reverted(reason: Reason)

  datatype Strategy = Strategy(
    action: string, amountIn: U256, amountOut: U256, tokenIn: Address, tokenOut: Address,
    pair: string, txHash: string, x402Proof: string, x402Signer: Address, outcome: string)

  datatype Call =
    | RegisterAgent(agent: Address)
    | UnregisterAgent(agent: Address)
    | Execute(strategy: Strategy)
    | DepositForStrategy(amount: U256, source: string)
    | RecordExecution(kind: string, target: string, amount: U256, openedTx: string)
    | RecordYield(positionId: U64, amount: U256, sourceTx: string)
    | WithdrawForStrategy(amount: U256, reason: string)

  datatype Tx = Tx(caller: Address, now: U64, call: Call)

  datatype Vault = Vault(
    owner: Address, agents: set<Address>, cap: U32, minAmount: U256, decisions: seq<Decision>,
    inflows: seq<nat>, outflows: seq<nat>, entries: seq<Position>, claims: seq<Claim>)

  function Init(owner: Address, agent: Address, maxLog: U32, minAmount: U256): Vault {
    Vault(owner, {owner, agent}, Max(maxLog, 1), minAmount, [], [], [], [], [])
  }

  // ---- measures ----

  function Same(n: nat): nat { n }
  function Success(d: Decision): nat { if d.outcome == "success" then 1 else 0 }
  function Agent(d: Decision): Address { d.agent }
  function SuccessBy(agent: Address): Decision -> nat { Fibre(Success, Agent, agent) }
  function ClaimAmount(c: Claim): nat { c.amount }
  function ClaimedFor(index: nat): Claim -> nat { (c: Claim) => if c.index == index then c.amount else 0 }
  function Realised(p: Position): nat { p.realisedYield }

  lemma SuccessByAt(agent: Address, d: Decision)
    ensures SuccessBy(agent)(d) == if d.agent == agent then Success(d) else 0
  {
    var f: Decision -> nat, key: Decision -> Address := Success, Agent;
    assert f(d) == Success(d) && key(d) == d.agent;
    assert Fibre(f, key, agent)(d) == if key(d) == agent then f(d) else 0;
  }

  ghost function MovedIn(v: Vault): nat { SumBy(v.inflows, Same) }
  ghost function MovedOut(v: Vault): nat { SumBy(v.outflows, Same) }
  ghost function Claimed(v: Vault): nat { SumBy(v.claims, ClaimAmount) }

  // ---- position ids: the 64-bit counter, counting on from 0 when it wraps ----

  /** The lookup's mark for "not found", u32::MAX. */
  const NOT_FOUND: nat := 0xFFFF_FFFF

  function IdAt(index: nat): U64 {
    (index + 1) % U64_SIZE
  }

  /** The first index that carries `id`. */
  function IndexOf(id: U64): nat {
    if id == 0 then U64_SIZE - 1 else id - 1
  }

  lemma IndexOfIsFirst(id: U64, index: nat)
    ensures IdAt(IndexOf(id)) == id
    ensures index < IndexOf(id) ==> IdAt(index) != id
    ensures index < U64_SIZE - 1 ==> IdAt(index) == index + 1
  {
    if id == 0 {
      ModUnique(U64_SIZE, U64_SIZE, 1, 0);
    } else {
      ModUnique(id, U64_SIZE, 0, id);
    }
    if index < U64_SIZE - 1 {
      ModUnique(index + 1, U64_SIZE, 0, index + 1);
    }
  }

  // ---- calls ----

  ghost function Judge(v: Vault, tx: Tx): Verdict {
    match tx.call
    case RegisterAgent(_) => if tx.caller == v.owner then Done else Reverted(OnlyOwner)
    case UnregisterAgent(_) => if tx.caller == v.owner then Done else Reverted(OnlyOwner)
    case Execute(s) =>
      if tx.caller !in v.agents then Reverted(NotAgent)
      else if s.amountIn < v.minAmount then Reverted(BelowMinimum)
      else Done
    case DepositForStrategy(amount, source) =>
      if tx.caller !in v.agents then Reverted(NotAgent)
      else if amount == 0 then Reverted(ZeroAmount)
      else if |source| > 64 then Reverted(TextTooLong)
      else if MovedIn(v) + amount >= U256_SIZE then Reverted(Overflow)
      else Done
    case RecordExecution(kind, target, amount, openedTx) =>
      if tx.caller !in v.agents then Reverted(NotAgent)
      else if amount == 0 then Reverted(ZeroAmount)
      else if |kind| > 32 || |target| > 64 || |openedTx| > 64 then Reverted(TextTooLong)
      else Done
    case RecordYield(id, amount, sourceTx) =>
      if tx.caller !in v.agents then Reverted(NotAgent)
      else if amount == 0 then Reverted(ZeroAmount)
      else if |sourceTx| > 64 then Reverted(TextTooLong)
      else if IndexOf(id) >= |v.entries| || IndexOf(id) == NOT_FOUND then Reverted(PositionNotFound)
      else if Claimed(v) + amount >= U256_SIZE then Reverted(Overflow)
      else Done
    case WithdrawForStrategy(amount, reason) =>
      if tx.caller !in v.agents then Reverted(NotAgent)
      else if amount == 0 then Reverted(ZeroAmount)
      else if amount > MovedIn(v) - MovedOut(v) then Reverted(InsufficientCustody)
      else if |reason| > 64 then Reverted(TextTooLong)
      else Done
  }

  function Decide(s: Strategy, agent: Address, now: U64): Decision {
    Decision(now, agent, s.action, s.amountIn, s.amountOut, s.tokenIn, s.tokenOut, s.pair, s.txHash,
             s.x402Proof, s.x402Signer, s.outcome, if s.outcome == "success" then 1 else 0)
  }

  function Open(id: U64, kind: string, target: string, amount: U256, openedTx: string, now: U64): Position {
    Position(id, kind, target, amount, now, openedTx, 0, false, 0, "")
  }

  ghost function Step(v: Vault, tx: Tx): Vault {
    if Judge(v, tx) != Done then v else
      match tx.call
      case RegisterAgent(a) => v.(agents := v.agents + {a})
      case UnregisterAgent(a) => v.(agents := v.agents - {a})
      case Execute(s) => v.(decisions := v.decisions + [Decide(s, tx.caller, tx.now)])
      case DepositForStrategy(amount, _) => v.(inflows := v.inflows + [amount])
      case RecordExecution(kind, target, amount, openedTx) =>
        v.(entries := v.entries + [Open(IdAt(|v.entries|), kind, target, amount, openedTx, tx.now)])
      case RecordYield(id, amount, _) => v.(claims := v.claims + [Claim(IndexOf(id), amount)])
      case WithdrawForStrategy(amount, _) => v.(outflows := v.outflows + [amount])
  }

  ghost function Run(v: Vault, txs: seq<Tx>): Vault
    decreases |txs|
  {
    if txs == [] then v else Run(Step(v, txs[0]), txs[1..])
  }

  // ---- what each call does, and when it is refused ----

  /** A decision is logged iff an agent records it with at least the minimum, under their name and the block time. */
  lemma ExecuteIff(v: Vault, tx: Tx)
    requires tx.call.Execute?
    ensures var s, v', j := tx.call.strategy, Step(v, tx), Judge(v, tx);
            && (|v'.decisions| == |v.decisions| + 1 <==> tx.caller in v.agents && s.amountIn >= v.minAmount)
            && (tx.caller in v.agents && s.amountIn >= v.minAmount ==>
                  v' == v.(decisions := v.decisions +
                    [Decision(tx.now, tx.caller, s.action, s.amountIn, s.amountOut, s.tokenIn, s.tokenOut,
                              s.pair, s.txHash, s.x402Proof, s.x402Signer, s.outcome,
                              if s.outcome == "success" then 1 else 0)]))
            && (j != Done <==> tx.caller !in v.agents || s.amountIn < v.minAmount)
            && (j != Done ==> v' == v)
            && (j == Reverted(NotAgent) <==> tx.caller !in v.agents)
            && (j == Reverted(BelowMinimum) <==> tx.caller in v.agents && s.amountIn < v.minAmount)
  {
  }

  /** Money is moved in iff an agent moves a positive amount with a short label and the total fits 256 bits. */
  lemma DepositIff(v: Vault, tx: Tx)
    requires tx.call.DepositForStrategy?
    ensures var c, v', j := tx.call, Step(v, tx), Judge(v, tx);
            var fits, room := |c.source| <= 64, MovedIn(v) + c.amount < U256_SIZE;
            var ok := tx.caller in v.agents && c.amount > 0 && fits && room;
            && (v'.inflows == v.inflows + [c.amount] <==> ok)
            && v' == (if ok then v.(inflows := v.inflows + [c.amount]) else v)
            && (j == Reverted(NotAgent) <==> tx.caller !in v.agents)
            && (j == Reverted(ZeroAmount) <==> tx.caller in v.agents && c.amount == 0)
            && (j == Reverted(TextTooLong) <==> tx.caller in v.agents && c.amount > 0 && !fits)
            && (j == Reverted(Overflow) <==> tx.caller in v.agents && c.amount > 0 && fits && !room)
            && (j == Done <==> ok)
  {
    assert |v.inflows + [tx.call.amount]| == |v.inflows| + 1;
  }

  /** Custody is withdrawn iff an agent withdraws a positive amount, at most all that is left, with a short reason. */
  lemma WithdrawIff(v: Vault, tx: Tx)
    requires tx.call.WithdrawForStrategy?
    ensures var c, v', j, left := tx.call, Step(v, tx), Judge(v, tx), MovedIn(v) - MovedOut(v);
            var ok := tx.caller in v.agents && 0 < c.amount <= left && |c.reason| <= 64;
            && (v'.outflows == v.outflows + [c.amount] <==> ok)
            && v' == (if ok then v.(outflows := v.outflows + [c.amount]) else v)
            && (j == Reverted(NotAgent) <==> tx.caller !in v.agents)
            && (j == Reverted(ZeroAmount) <==> tx.caller in v.agents && c.amount == 0)
            && (j == Reverted(InsufficientCustody) <==> tx.caller in v.agents && c.amount > 0 && c.amount > left)
            && (j == Reverted(TextTooLong) <==> tx.caller in v.agents && 0 < c.amount <= left && |c.reason| > 64)
            && (j == Done <==> ok)
  {
    assert |v.outflows + [tx.call.amount]| == |v.outflows| + 1;
  }

  /** A position is opened iff an agent opens it with a positive amount and short texts; it starts without yield. */
  lemma OpenIff(v: Vault, tx: Tx)
    requires tx.call.RecordExecution?
    ensures var c, v', j := tx.call, Step(v, tx), Judge(v, tx);
            var fits := |c.kind| <= 32 && |c.target| <= 64 && |c.openedTx| <= 64;
            var ok := tx.caller in v.agents && c.amount > 0 && fits;
            && (|v'.entries| == |v.entries| + 1 <==> ok)
            && v' == (if ok then v.(entries := v.entries +
                        [Position((|v.entries| + 1) % U64_SIZE, c.kind, c.target, c.amount, tx.now, c.openedTx,
                                  0, false, 0, "")]) else v)
            && (j == Reverted(NotAgent) <==> tx.caller !in v.agents)
            && (j == Reverted(ZeroAmount) <==> tx.caller in v.agents && c.amount == 0)
            && (j == Reverted(TextTooLong) <==> tx.caller in v.agents && c.amount > 0 && !fits)
            && (j == Done <==> ok)
  {
  }

  /** Yield is booked iff an agent books a positive amount on a position that exists and the total fits 256 bits. */
  lemma ClaimIff(v: Vault, tx: Tx)
    requires tx.call.RecordYield?
    ensures var c, v', j := tx.call, Step(v, tx), Judge(v, tx);
            var known := IndexOf(c.positionId) < |v.entries| && IndexOf(c.positionId) != 0xFFFF_FFFF;
            var fits := |c.sourceTx| <= 64;
            var room := Claimed(v) + c.amount < U256_SIZE;
            var ok := tx.caller in v.agents && c.amount > 0 && fits && known && room;
            && (|v.entries| < U32_SIZE ==> (known <==> 1 <= c.positionId <= |v.entries|))
            && (|v'.claims| == |v.claims| + 1 <==> ok)
            && v' == (if ok then v.(claims := v.claims + [Claim(IndexOf(c.positionId), c.amount)]) else v)
            && (known && |v.entries| < U32_SIZE ==> IndexOf(c.positionId) == c.positionId - 1)
            && (j == Done <==> ok)
            && (j == Reverted(NotAgent) <==> tx.caller !in v.agents)
            && (j == Reverted(ZeroAmount) <==> tx.caller in v.agents && c.amount == 0)
            && (j == Reverted(TextTooLong) <==> tx.caller in v.agents && c.amount > 0 && !fits)
            && (j == Reverted(PositionNotFound) <==> tx.caller in v.agents && c.amount > 0 && fits && !known)
            && (j == Reverted(Overflow) <==> tx.caller in v.agents && c.amount > 0 && fits && known && !room)
  {
  }

  /** Only the owner registers and unregisters agents, one at a time, and nobody else becomes or ceases to be one. */
  lemma RegisterIff(v: Vault, tx: Tx)
    ensures tx.call.RegisterAgent? ==>
              && Step(v, tx) == (if tx.caller == v.owner then v.(agents := v.agents + {tx.call.agent}) else v)
              && Judge(v, tx) == (if tx.caller == v.owner then Done else Reverted(OnlyOwner))
    ensures tx.call.UnregisterAgent? ==>
              && Step(v, tx) == (if tx.caller == v.owner then v.(agents := v.agents - {tx.call.agent}) else v)
              && Judge(v, tx) == (if tx.caller == v.owner then Done else Reverted(OnlyOwner))
    ensures !tx.call.RegisterAgent? && !tx.call.UnregisterAgent? ==> Step(v, tx).agents == v.agents
    ensures Step(v, tx).owner == v.owner && Step(v, tx).minAmount == v.minAmount && Step(v, tx).cap == v.cap
  {
  }

  /** Whether the last thing the owner said about `a` in the run was a registration; None if they said nothing. */
  function LastRegistration(owner: Address, txs: seq<Tx>, a: Address): Option<bool>
    decreases |txs|
  {
    if txs == [] then None else
      var later, tx := LastRegistration(owner, txs[1..], a), txs[0];
      if later.Some? then later
      else if tx.caller == owner && tx.call == RegisterAgent(a) then Some(true)
      else if tx.caller == owner && tx.call == UnregisterAgent(a) then Some(false)
      else None
  }

  /** After any run an address is an agent iff the owner's last word on it says so, or there is none and it was one. */
  lemma {:induction false} AgentAfterRun(v: Vault, txs: seq<Tx>, a: Address)
    ensures var v', last := Run(v, txs), LastRegistration(v.owner, txs, a);
            && (a in v'.agents <==> if last.Some? then last.value else a in v.agents)
            && v'.owner == v.owner && v'.minAmount == v.minAmount
    decreases |txs|
  {
    if txs != [] {
      RegisterIff(v, txs[0]);
      AgentAfterRun(Step(v, txs[0]), txs[1..], a);
    }
  }

  /** So from deployment on, a decision of at least the minimum is accepted exactly from those agents. */
  lemma AcceptedFromAgents(owner: Address, agent: Address, maxLog: U32, minAmount: U256, txs: seq<Tx>, tx: Tx)
    requires tx.call.Execute? && tx.call.strategy.amountIn >= minAmount
    ensures var last := LastRegistration(owner, txs, tx.caller);
            Judge(Run(Init(owner, agent, maxLog, minAmount), txs), tx) == Done <==>
              if last.Some? then last.value else tx.caller == owner || tx.caller == agent
  {
    AgentAfterRun(Init(owner, agent, maxLog, minAmount), txs, tx.caller);
    ExecuteIff(Run(Init(owner, agent, maxLog, minAmount), txs), tx);
  }

  // ---- the invariant of every run ----

  ghost predicate CustodySound(inflows: seq<nat>, outflows: seq<nat>) {
    SumBy(outflows, Same) <= SumBy(inflows, Same) < U256_SIZE
  }

  ghost predicate PositionsSound(entries: seq<Position>) {
    forall i :: 0 <= i < |entries| ==>
                  entries[i].id == IdAt(i) && entries[i].realisedYield == 0 && entries[i].amount > 0
  }

  ghost predicate ClaimsSound(claims: seq<Claim>, positions: nat) {
    && SumBy(claims, ClaimAmount) < U256_SIZE
    && forall k :: 0 <= k < |claims| ==> claims[k].index < positions
  }

  ghost predicate DecisionsSound(decisions: seq<Decision>, minAmount: U256) {
    forall k :: 0 <= k < |decisions| ==> decisions[k].amountIn >= minAmount
  }

  ghost predicate Sound(v: Vault) {
    && 1 <= v.cap
    && CustodySound(v.inflows, v.outflows)
    && PositionsSound(v.entries)
    && ClaimsSound(v.claims, |v.entries|)
    && DecisionsSound(v.decisions, v.minAmount)
  }

  lemma FlowIn(inflows: seq<nat>, outflows: seq<nat>, amount: nat)
    requires CustodySound(inflows, outflows) && SumBy(inflows, Same) + amount < U256_SIZE
    ensures CustodySound(inflows + [amount], outflows)
    ensures SumBy(inflows + [amount], Same) == SumBy(inflows, Same) + amount
  {
    SumByAppend<nat>(inflows, amount, Same);
  }

  lemma FlowOut(inflows: seq<nat>, outflows: seq<nat>, amount: nat)
    requires CustodySound(inflows, outflows) && SumBy(outflows, Same) + amount <= SumBy(inflows, Same)
    ensures CustodySound(inflows, outflows + [amount])
    ensures SumBy(outflows + [amount], Same) == SumBy(outflows, Same) + amount
  {
    SumByAppend<nat>(outflows, amount, Same);
  }

  /** Which part of the ledger a call can change, and by what. */
  lemma StepCases(v: Vault, tx: Tx)
    ensures var v' := Step(v, tx);
            && (v'.inflows == v.inflows ||
                (tx.call.DepositForStrategy? && MovedIn(v) + tx.call.amount < U256_SIZE &&
                 v'.inflows == v.inflows + [tx.call.amount]))
            && (v'.outflows == v.outflows ||
                (tx.call.WithdrawForStrategy? && tx.call.amount <= MovedIn(v) - MovedOut(v) &&
                 v'.outflows == v.outflows + [tx.call.amount]))
            && (v'.outflows == v.outflows || v'.inflows == v.inflows)
            && (v'.claims == v.claims ||
                (tx.call.RecordYield? && IndexOf(tx.call.positionId) < |v.entries| &&
                 Claimed(v) + tx.call.amount < U256_SIZE &&
                 v'.claims == v.claims + [Claim(IndexOf(tx.call.positionId), tx.call.amount)]))
            && v.entries <= v'.entries
  {
  }

  lemma StepCustody(v: Vault, tx: Tx)
    requires Sound(v)
    ensures CustodySound(Step(v, tx).inflows, Step(v, tx).outflows)
  {
    StepCases(v, tx);
    var v' := Step(v, tx);
    if v'.inflows != v.inflows {
      FlowIn(v.inflows, v.outflows, tx.call.amount);
    } else if v'.outflows != v.outflows {
      FlowOut(v.inflows, v.outflows, tx.call.amount);
    }
  }

  lemma StepPositions(v: Vault, tx: Tx)
    requires Sound(v)
    ensures PositionsSound(Step(v, tx).entries)
  {
    var entries := Step(v, tx).entries;
    forall i | 0 <= i < |entries|
      ensures entries[i].id == IdAt(i) && entries[i].realisedYield == 0 && entries[i].amount > 0
    {
      if i < |v.entries| {
        assert entries[i] == v.entries[i];
      }
    }
  }

  lemma ClaimAdded(claims: seq<Claim>, positions: nat, c: Claim)
    requires ClaimsSound(claims, positions) && c.index < positions && SumBy(claims, ClaimAmount) + c.amount < U256_SIZE
    ensures ClaimsSound(claims + [c], positions)
    ensures SumBy(claims + [c], ClaimAmount) == SumBy(claims, ClaimAmount) + c.amount
  {
    SumByAppend(claims, c, ClaimAmount);
  }

  lemma StepClaims(v: Vault, tx: Tx)
    requires Sound(v)
    ensures ClaimsSound(Step(v, tx).claims, |Step(v, tx).entries|)
  {
    StepCases(v, tx);
    if Step(v, tx).claims != v.claims {
      ClaimAdded(v.claims, |v.entries|, Claim(IndexOf(tx.call.positionId), tx.call.amount));
    }
  }

  lemma StepSound(v: Vault, tx: Tx)
    requires Sound(v)
    ensures Sound(Step(v, tx))
  {
    StepCustody(v, tx);
    StepPositions(v, tx);
    StepClaims(v, tx);
  }

  lemma {:induction false} SoundKept(v: Vault, txs: seq<Tx>)
    requires Sound(v)
    ensures Sound(Run(v, txs))
    decreases |txs|
  {
    if txs != [] {
      StepSound(v, txs[0]);
      SoundKept(Step(v, txs[0]), txs[1..]);
    }
  }

  /**
   In every reachable vault: what was withdrawn never exceeds what was moved in, position i carries the i-th id,
   every yield claim names an existing position, and no recorded decision is below the minimum.
   */
  lemma RunSound(owner: Address, agent: Address, maxLog: U32, minAmount: U256, txs: seq<Tx>)
    ensures Sound(Run(Init(owner, agent, maxLog, minAmount), txs))
  {
    SoundKept(Init(owner, agent, maxLog, minAmount), txs);
  }

  /** Every decision was recorded by someone who was an authorised agent when they recorded it, under their own name. */
  lemma {:induction false} DecisionsByAgents(v: Vault, txs: seq<Tx>, k: nat)
    requires |v.decisions| <= k < |Run(v, txs).decisions|
    ensures exists i :: 0 <= i < |txs| && txs[i].call.Execute? &&
                        txs[i].caller in Run(v, txs[..i]).agents && |Run(v, txs[..i]).decisions| == k &&
                        Run(v, txs).decisions[k] == Decide(txs[i].call.strategy, txs[i].caller, txs[i].now)
    decreases |txs|
  {
    var v', rest := Step(v, txs[0]), txs[1..];
    if k < |v'.decisions| {
      HistoryGrows(v', rest, ZERO_ADDRESS);
      assert txs[..0] == [];
    } else {
      DecisionsByAgents(v', rest, k);
      var i :| 0 <= i < |rest| && rest[i].call.Execute? &&
               rest[i].caller in Run(v', rest[..i]).agents && |Run(v', rest[..i]).decisions| == k &&
               Run(v', rest).decisions[k] == Decide(rest[i].call.strategy, rest[i].caller, rest[i].now);
      assert txs[..i + 1][0] == txs[0] && txs[..i + 1][1..] == rest[..i];
      assert txs[i + 1] == rest[i];
    }
  }

  /** The history only ever grows, so an agent's successes are never taken back, not even by unregistering them. */
  lemma {:induction false} HistoryGrows(v: Vault, txs: seq<Tx>, agent: Address)
    ensures v.decisions <= Run(v, txs).decisions
    ensures SumBy(v.decisions, SuccessBy(agent)) <= SumBy(Run(v, txs).decisions, SuccessBy(agent))
    decreases |txs|
  {
    if txs != [] {
      var v' := Step(v, txs[0]);
      HistoryGrows(v', txs[1..], agent);
      assert v'.decisions == v.decisions + v'.decisions[|v.decisions|..];
      SumBySplit(v.decisions, v'.decisions[|v.decisions|..], SuccessBy(agent));
    }
  }

  /** Claims sorted by the position they name: with every claim on a real position, the per-position sums add up. */
  lemma {:induction false} ClaimsByPosition(positions: seq<Position>, claims: seq<Claim>)
    requires forall i :: 0 <= i < |positions| ==> positions[i].realisedYield == SumBy(claims, ClaimedFor(i))
    requires forall k :: 0 <= k < |claims| ==> claims[k].index < |positions|
    ensures SumBy(positions, Realised) == SumBy(claims, ClaimAmount)
    decreases |claims|
  {
    if claims == [] {
      SumByZero(positions, Realised);
    } else {
      var c, rest := claims[|claims| - 1], claims[..|claims| - 1];
      var i := c.index;
      SumByUpdate(positions, i, positions[i], Realised);
      var before := positions[i].(realisedYield := positions[i].realisedYield - c.amount);
      var positions' := positions[i := before];
      forall k | 0 <= k < |positions'| ensures positions'[k].realisedYield == SumBy(rest, ClaimedFor(k)) {
        assert SumBy(claims, ClaimedFor(k)) == SumBy(rest, ClaimedFor(k)) + ClaimedFor(k)(c);
      }
      ClaimsByPosition(positions', rest);
      SumByUpdate(positions, i, before, Realised);
    }
  }
}
