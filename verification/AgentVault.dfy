/** The vault contract as it runs: the decision ring, reputation and custody counters, and the position list. */
module AgentVault {
  import opened Prelude
  import opened RingBuffer
  import opened VaultLedger

  /** What the view returns when nothing matches. */
  const NO_POSITION := Position(0, "", "", 0, 0, "", 0, false, 0, "")

  class AgentVault {
    var owner: Address
    var agents: map<Address, bool>
    const decisionLog: Ring<Decision>
    var totalStrategies: U64
    var reputation: map<Address, U64>
    var reputationGlobal: U64
    const minStrategyAmount: U256
    var custodiedCspr: U256
    var totalCustodied: U256
    var totalYieldRealised: U256
    var positions: seq<Position>
    var positionCount: U64
    ghost var inflows: seq<nat>
    ghost var outflows: seq<nat>
    ghost var entries: seq<Position>
    ghost var claims: seq<Claim>

    /** The ledger this contract stands for. */
    ghost function Ledger(): Vault
      reads this, decisionLog
    {
      Vault(
        owner, Authorised(agents), decisionLog.cap, minStrategyAmount, decisionLog.history,
        inflows, outflows, entries, claims)
    }

    ghost predicate Valid()
      reads this, decisionLog
    {
      && decisionLog.Valid()
      && LogConsistent(decisionLog.history, totalStrategies, reputation, reputationGlobal)
      && DecisionsSound(decisionLog.history, minStrategyAmount)
      && CustodyConsistent(inflows, outflows, custodiedCspr, totalCustodied)
      && positionCount == |positions| % U64_SIZE
      && YieldsConsistent(positions, entries, claims, totalYieldRealised)
    }

    /** The is_agent view. */
    predicate IsAgent(a: Address)
      reads this
      ensures IsAgent(a) <==> a in Authorised(agents)
    {
      a in agents && agents[a]
    }

    constructor (owner: Address, agent: Address, maxLogHistory: U32, minStrategyAmount: U256)
      ensures Valid() && fresh(decisionLog)
      ensures Ledger() == Init(owner, agent, maxLogHistory, minStrategyAmount)
      ensures this.owner == owner && Authorised(agents) == {owner, agent} && this.minStrategyAmount == minStrategyAmount
      ensures decisionLog.cap == (if maxLogHistory == 0 then 1 else maxLogHistory)
    {
      this.owner, this.minStrategyAmount := owner, minStrategyAmount;
      agents := map[owner := true][agent := true];
      decisionLog := new Ring<Decision>(Max(maxLogHistory, 1));
      totalStrategies, reputation, reputationGlobal := 0, map[], 0;
      custodiedCspr, totalCustodied, totalYieldRealised := 0, 0, 0;
      positions, positionCount := [], 0;
      inflows, outflows, entries, claims := [], [], [], [];
      new;
      assert Authorised(agents) == {owner, agent};
    }

    method RegisterAgent(caller: Address, now: U64, agent: Address) returns (v: Verdict)
      requires Valid()
      modifies this
      ensures Valid() && v == Judge(old(Ledger()), Tx(caller, now, Call.RegisterAgent(agent)))
      ensures Ledger() == Step(old(Ledger()), Tx(caller, now, Call.RegisterAgent(agent)))
    {
      if caller != owner {
        return Reverted(OnlyOwner);
      }
      agents := agents[agent := true];
      assert Authorised(agents) == Authorised(old(agents)) + {agent};
      v := Done;
    }

    method UnregisterAgent(caller: Address, now: U64, agent: Address) returns (v: Verdict)
      requires Valid()
      modifies this
      ensures Valid() && v == Judge(old(Ledger()), Tx(caller, now, Call.UnregisterAgent(agent)))
      ensures Ledger() == Step(old(Ledger()), Tx(caller, now, Call.UnregisterAgent(agent)))
    {
      if caller != owner {
        return Reverted(OnlyOwner);
      }
      agents := agents[agent := false];
      assert Authorised(agents) == Authorised(old(agents)) - {agent};
      v := Done;
    }

    method ExecuteStrategy(caller: Address, now: U64, s: Strategy) returns (v: Verdict)
      requires Valid()
      modifies this, decisionLog
      ensures Valid() && v == Judge(old(Ledger()), Tx(caller, now, Execute(s)))
      ensures Ledger() == Step(old(Ledger()), Tx(caller, now, Execute(s)))
    {
      if !IsAgent(caller) {
        return Reverted(NotAgent);
      }
      if s.amountIn < minStrategyAmount {
        return Reverted(BelowMinimum);
      }
      var repDelta := if s.outcome == "success" then 1 else 0;
      Log(Decision(now, caller, s.action, s.amountIn, s.amountOut, s.tokenIn, s.tokenOut, s.pair, s.txHash,
                   s.x402Proof, s.x402Signer, s.outcome, repDelta));
      v := Done;
    }

    /** The bookkeeping of a decision that passed its guards. */
    method Log(d: Decision)
      requires Valid() && d.amountIn >= minStrategyAmount
      requires d.reputationDelta == Success(d)
      modifies this, decisionLog
      ensures Valid() && Ledger() == old(Ledger()).(decisions := old(Ledger()).decisions + [d])
    {
      LogKeeps(decisionLog.history, d, totalStrategies, reputation, reputationGlobal);
      decisionLog.Push(d);
      totalStrategies := AddU64(totalStrategies, 1);
      var prevRep := Lookup(reputation, d.agent);
      reputation := reputation[d.agent := AddU64(prevRep, d.reputationDelta)];
      if d.reputationDelta > 0 {
        reputationGlobal := AddU64(reputationGlobal, d.reputationDelta);
      }
    }

    method DepositForStrategy(caller: Address, now: U64, amount: U256, source: string) returns (v: Verdict)
      requires Valid()
      modifies this
      ensures Valid() && v == Judge(old(Ledger()), Tx(caller, now, Call.DepositForStrategy(amount, source)))
      ensures Ledger() == Step(old(Ledger()), Tx(caller, now, Call.DepositForStrategy(amount, source)))
    {
      if !IsAgent(caller) {
        return Reverted(NotAgent);
      }
      if amount == 0 {
        return Reverted(ZeroAmount);
      }
      if |source| > 64 {
        return Reverted(TextTooLong);
      }
      if custodiedCspr + amount >= U256_SIZE || totalCustodied + amount >= U256_SIZE {
        return Reverted(Overflow);
      }
      MoveIn(amount);
      v := Done;
    }

    /** The bookkeeping of a custody deposit that passed its guards. */
    method MoveIn(amount: U256)
      requires Valid() && totalCustodied + amount < U256_SIZE
      modifies this
      ensures Valid() && Ledger() == old(Ledger()).(inflows := old(Ledger()).inflows + [amount])
    {
      FlowIn(inflows, outflows, amount);
      custodiedCspr := custodiedCspr + amount;
      totalCustodied := totalCustodied + amount;
      inflows := inflows + [amount];
    }

    method RecordStrategyExecution(
      caller: Address, now: U64, kind: string, target: string, amount: U256, openedTx: string)
      returns (v: Verdict)
      requires Valid()
      modifies this
      ensures Valid() && v == Judge(old(Ledger()), Tx(caller, now, RecordExecution(kind, target, amount, openedTx)))
      ensures Ledger() == Step(old(Ledger()), Tx(caller, now, RecordExecution(kind, target, amount, openedTx)))
    {
      if !IsAgent(caller) {
        return Reverted(NotAgent);
      }
      if amount == 0 {
        return Reverted(ZeroAmount);
      }
      if |kind| > 32 || |target| > 64 || |openedTx| > 64 {
        return Reverted(TextTooLong);
      }
      var id := AddU64(positionCount, 1);
      AddU64Mod(|positions|, 1);
      OpenPosition(Position(id, kind, target, amount, now, openedTx, 0, false, 0, ""));
      v := Done;
    }

    /** The bookkeeping of a new position that passed its guards. */
    method OpenPosition(pos: Position)
      requires Valid() && pos.id == IdAt(|positions|) && pos.realisedYield == 0 && pos.amount > 0
      modifies this
      ensures Valid() && Ledger() == old(Ledger()).(entries := old(Ledger()).entries + [pos])
    {
      OpenKeepsYields(positions, entries, claims, totalYieldRealised, pos);
      positionCount := pos.id;
      positions := positions + [pos];
      entries := entries + [pos];
    }

    /** The search loop of `record_yield_realised`, with its u32::MAX sentinel for "not found". */
    method FindPosition(id: U64) returns (foundIdx: nat)
      requires Valid()
      ensures foundIdx == if IndexOf(id) < |positions| then IndexOf(id) else NOT_FOUND
      ensures |positions| < U32_SIZE ==> (foundIdx != NOT_FOUND <==> 1 <= id <= |positions|)
    {
      foundIdx := NOT_FOUND;
      for i := 0 to |positions|
        invariant i <= IndexOf(id)
        invariant foundIdx == NOT_FOUND
      {
        IndexOfIsFirst(id, i);
        assert positions[i].id == IdAt(i);
        if positions[i].id == id {
          foundIdx := i;
          break;
        }
      }
    }

    method RecordYieldRealised(caller: Address, now: U64, positionId: U64, amount: U256, sourceTx: string)
      returns (v: Verdict)
      requires Valid()
      modifies this
      ensures Valid() && v == Judge(old(Ledger()), Tx(caller, now, RecordYield(positionId, amount, sourceTx)))
      ensures Ledger() == Step(old(Ledger()), Tx(caller, now, RecordYield(positionId, amount, sourceTx)))
    {
      if !IsAgent(caller) {
        return Reverted(NotAgent);
      }
      if amount == 0 {
        return Reverted(ZeroAmount);
      }
      if |sourceTx| > 64 {
        return Reverted(TextTooLong);
      }
      var foundIdx := FindPosition(positionId);
      if foundIdx == NOT_FOUND {
        return Reverted(PositionNotFound);
      }
      var pos := positions[foundIdx];
      YieldBounded(foundIdx);
      if pos.realisedYield + amount >= U256_SIZE || totalYieldRealised + amount >= U256_SIZE {
        return Reverted(Overflow);
      }
      AddYield(foundIdx, amount);
      v := Done;
    }

    lemma YieldBounded(idx: nat)
      requires Valid() && idx < |positions|
      ensures positions[idx].realisedYield <= totalYieldRealised
    {
      YieldsAddUp();
      SumByUpdate(positions, idx, positions[idx], Realised);
    }

    /** The bookkeeping of a yield claim that passed its guards. */
    method AddYield(idx: nat, amount: U256)
      requires Valid() && idx < |positions|
      requires positions[idx].realisedYield + amount < U256_SIZE && totalYieldRealised + amount < U256_SIZE
      modifies this`positions, this`totalYieldRealised, this`claims
      ensures Valid() && claims == old(claims) + [Claim(idx, amount)]
    {
      var pos := positions[idx];
      pos := pos.(realisedYield := pos.realisedYield + amount);
      var c := Claim(idx, amount);
      ClaimKeepsYields(positions, entries, claims, totalYieldRealised, idx, pos, c);
      positions := positions[idx := pos];
      totalYieldRealised := totalYieldRealised + amount;
      claims := claims + [c];
    }

    method WithdrawForStrategy(caller: Address, now: U64, amount: U256, reason: string) returns (v: Verdict)
      requires Valid()
      modifies this
      ensures Valid() && v == Judge(old(Ledger()), Tx(caller, now, Call.WithdrawForStrategy(amount, reason)))
      ensures Ledger() == Step(old(Ledger()), Tx(caller, now, Call.WithdrawForStrategy(amount, reason)))
    {
      if !IsAgent(caller) {
        return Reverted(NotAgent);
      }
      if amount == 0 {
        return Reverted(ZeroAmount);
      }
      if amount > custodiedCspr {
        return Reverted(InsufficientCustody);
      }
      if |reason| > 64 {
        return Reverted(TextTooLong);
      }
      MoveOut(amount);
      v := Done;
    }

    /** The bookkeeping of a custody withdrawal that passed its guards. */
    method MoveOut(amount: U256)
      requires Valid() && amount <= custodiedCspr
      modifies this
      ensures Valid() && Ledger() == old(Ledger()).(outflows := old(Ledger()).outflows + [amount])
    {
      FlowOut(inflows, outflows, amount);
      custodiedCspr := custodiedCspr - amount;
      outflows := outflows + [amount];
    }

    /** The most recent `limit` of the decisions the ring keeps, out of all ever recorded, oldest first. */
    method GetDecisionLog(limit: U32) returns (r: seq<Decision>)
      requires Valid()
      ensures |decisionLog.history| < decisionLog.cap ||
              WalkFits(decisionLog.head, decisionLog.cap, Min(limit, decisionLog.cap)) ==>
                r == LastN(decisionLog.history, Min(limit, Min(decisionLog.cap, |decisionLog.history|)))
    {
      r := decisionLog.Recent(limit);
    }

    /** The view of one position: as it was opened, with the yield claimed for it since. */
    method GetPosition(id: U64) returns (r: Position)
      requires Valid()
      ensures var i := IndexOf(id);
              r == if i < |entries| then entries[i].(realisedYield := YieldOf(claims, i)) else NO_POSITION
      ensures |entries| < U64_SIZE - 1 ==> (r.id == id != 0 <==> 1 <= id <= |entries|)
    {
      for i := 0 to |positions|
        invariant i <= IndexOf(id)
      {
        IndexOfIsFirst(id, i);
        assert positions[i].id == IdAt(i) && YieldOf(claims, i) == positions[i].realisedYield;
        if positions[i].id == id {
          return positions[i];
        }
      }
      r := NO_POSITION;
    }

    // ---- what the invariant says ----

    /** Custody, position and yield accounting of every reachable vault. */
    lemma YieldsAddUp()
      requires Valid()
      ensures positionCount == |positions| % U64_SIZE
      ensures |positions| < U64_SIZE ==> positionCount == |positions|
      ensures totalYieldRealised == SumBy(positions, Realised)
      ensures forall i :: 0 <= i < |positions| ==> positions[i].id == IdAt(i)
      ensures |positions| < U32_SIZE ==> forall i :: 0 <= i < |positions| ==> i != NOT_FOUND && positions[i].id == i + 1
      ensures custodiedCspr == totalCustodied - SumBy(outflows, Same)
    {
      forall i | 0 <= i < |positions| ensures positions[i].realisedYield == SumBy(claims, ClaimedFor(i)) {
        assert positions[i].realisedYield == YieldOf(claims, i);
      }
      forall i | 0 <= i < |positions| && |positions| < U32_SIZE ensures positions[i].id == i + 1 {
        assert positions[i].id == IdAt(i);
        IndexOfIsFirst(0, i);
      }
      AddU64Mod(|positions|, 0);
      ClaimsByPosition(positions, claims);
    }

    /**
     Global reputation is the number of successes in the full history, each agent's is the count of their own, and the
     strategy counter is the history's length, all modulo 2^64. Neither the ring nor the agent register enters.
     Below 2^64 successes the reputations are exact and the global one is the sum over the agents.
     */
    lemma ReputationAddsUp()
      requires Valid()
      ensures var h := decisionLog.history;
              && totalStrategies == |h| % U64_SIZE
              && reputationGlobal == SumBy(h, Success) % U64_SIZE
              && (forall a :: Lookup(reputation, a) == SumBy(h, SuccessBy(a)) % U64_SIZE)
              && (|h| < U64_SIZE ==> totalStrategies == |h|)
              && (SumBy(h, Success) < U64_SIZE ==>
                    && reputationGlobal == SumBy(h, Success) == SumValues(reputation)
                    && forall a :: Lookup(reputation, a) == SumBy(h, SuccessBy(a)))
    {
      var h := decisionLog.history;
      WrappedIsMod(|h|);
      WrappedIsMod(SumBy(h, Success));
      forall a ensures Lookup(reputation, a) == SumBy(h, SuccessBy(a)) % U64_SIZE {
        assert Lookup(reputation, a) == Wrapped(SumBy(h, SuccessBy(a)));
        WrappedIsMod(SumBy(h, SuccessBy(a)));
      }
      if SumBy(h, Success) < U64_SIZE {
        ReputationFits(h, reputation);
        var key: Decision -> Address := Agent;
        forall a | a in reputation ensures reputation[a] == SumBy(h, Fibre(Success, key, a)) {
          assert Lookup(reputation, a) == SumBy(h, SuccessBy(a));
        }
        SumOfFibres(h, Success, key, reputation);
      }
    }
  }

  // ---- the stored values over one step ----

  ghost function Authorised(agents: map<Address, bool>): set<Address> {
    set a | a in agents && agents[a]
  }

  /** A count as a u64 counter keeps it: n modulo 2^64, taken off step by step. */
  function Wrapped(n: nat): U64 {
    if n < U64_SIZE then n else Wrapped(n - U64_SIZE)
  }

  lemma {:induction false} WrappedIsMod(n: nat)
    ensures Wrapped(n) == n % U64_SIZE
  {
    if n >= U64_SIZE {
      WrappedIsMod(n - U64_SIZE);
    }
  }

  lemma WrappedAdd(n: nat, a: U64)
    ensures AddU64(Wrapped(n), a) == Wrapped(n + a)
  {
    WrappedIsMod(n);
    WrappedIsMod(n + a);
    AddU64Mod(n, a);
  }

  /** The strategy counter and the reputations against the history. */
  ghost predicate LogConsistent(h: seq<Decision>, total: U64, reputation: map<Address, U64>, global: U64) {
    && total == Wrapped(|h|)
    && global == Wrapped(SumBy(h, Success))
    && ReputationExact(h, reputation)
  }

  ghost predicate ReputationExact(h: seq<Decision>, reputation: map<Address, U64>) {
    && (forall i :: 0 <= i < |h| ==> h[i].agent in reputation)
    && forall a :: Lookup(reputation, a) == Wrapped(SumBy(h, SuccessBy(a)))
  }

  lemma SuccessesAfter(h: seq<Decision>, d: Decision, a: Address)
    ensures SumBy(h + [d], SuccessBy(a)) == SumBy(h, SuccessBy(a)) + if a == d.agent then Success(d) else 0
  {
    SumByAppend(h, d, SuccessBy(a));
    SuccessByAt(a, d);
  }

  lemma ReputationKeeps(h: seq<Decision>, d: Decision, reputation: map<Address, U64>)
    requires ReputationExact(h, reputation)
    ensures ReputationExact(h + [d], reputation[d.agent := AddU64(Lookup(reputation, d.agent), Success(d))])
  {
    var was := SumBy(h, SuccessBy(d.agent));
    var now := AddU64(Lookup(reputation, d.agent), Success(d));
    assert now == Wrapped(was + Success(d)) by {
      assert Lookup(reputation, d.agent) == Wrapped(was);
      WrappedAdd(was, Success(d));
    }
    forall a ensures Lookup(reputation[d.agent := now], a) == Wrapped(SumBy(h + [d], SuccessBy(a))) {
      SuccessesAfter(h, d, a);
      assert Lookup(reputation, a) == Wrapped(SumBy(h, SuccessBy(a)));
    }
  }

  lemma LogKeeps(h: seq<Decision>, d: Decision, total: U64, reputation: map<Address, U64>, global: U64)
    requires LogConsistent(h, total, reputation, global)
    ensures LogConsistent(h + [d], AddU64(total, 1),
                          reputation[d.agent := AddU64(Lookup(reputation, d.agent), Success(d))],
                          if Success(d) > 0 then AddU64(global, Success(d)) else global)
  {
    WrappedAdd(|h|, 1);
    SumByAppend(h, d, Success);
    WrappedAdd(SumBy(h, Success), Success(d));
    ReputationKeeps(h, d, reputation);
  }

  /** No agent has more successes than there are. */
  lemma ReputationFits(h: seq<Decision>, reputation: map<Address, U64>)
    requires ReputationExact(h, reputation) && SumBy(h, Success) < U64_SIZE
    ensures forall a :: Lookup(reputation, a) == SumBy(h, SuccessBy(a))
  {
    forall a ensures Lookup(reputation, a) == SumBy(h, SuccessBy(a)) {
      assert Lookup(reputation, a) == Wrapped(SumBy(h, SuccessBy(a)));
      forall i | 0 <= i < |h| ensures SuccessBy(a)(h[i]) <= Success(h[i]) {
        SuccessByAt(a, h[i]);
      }
      SumByBelow(h, SuccessBy(a), Success);
    }
  }

  ghost function YieldOf(claims: seq<Claim>, i: nat): nat {
    SumBy(claims, ClaimedFor(i))
  }

  ghost predicate CustodyConsistent(inflows: seq<nat>, outflows: seq<nat>, custodied: U256, total: U256) {
    CustodySound(inflows, outflows) && total == SumBy(inflows, Same) && custodied == total - SumBy(outflows, Same)
  }

  /** Every stored position is the one that was opened, plus exactly the yield claimed for it. */
  ghost predicate YieldsConsistent(positions: seq<Position>, entries: seq<Position>, claims: seq<Claim>, total: U256) {
    && PositionsSound(entries) && ClaimsSound(claims, |entries|)
    && total == SumBy(claims, ClaimAmount)
    && |positions| == |entries|
    && forall i :: 0 <= i < |positions| ==>
         && positions[i].realisedYield == YieldOf(claims, i)
         && positions[i] == entries[i].(realisedYield := positions[i].realisedYield)
  }

  lemma OpenKeepsYields(positions: seq<Position>, entries: seq<Position>, claims: seq<Claim>, total: U256, p: Position)
    requires YieldsConsistent(positions, entries, claims, total)
    requires p.id == IdAt(|entries|) && p.realisedYield == 0 && p.amount > 0
    ensures YieldsConsistent(positions + [p], entries + [p], claims, total)
  {
    SumByZero(claims, ClaimedFor(|entries|));
  }

  lemma ClaimKeepsYields(positions: seq<Position>, entries: seq<Position>, claims: seq<Claim>, total: U256,
                         idx: nat, p: Position, c: Claim)
    requires YieldsConsistent(positions, entries, claims, total) && idx < |positions|
    requires c.index == idx && total + c.amount < U256_SIZE
    requires positions[idx].realisedYield + c.amount < U256_SIZE
    requires p == positions[idx].(realisedYield := positions[idx].realisedYield + c.amount)
    ensures YieldsConsistent(positions[idx := p], entries, claims + [c], total + c.amount)
  {
    ClaimAdded(claims, |entries|, c);
    forall i | 0 <= i < |positions|
      ensures YieldOf(claims + [c], i) == YieldOf(claims, i) + if i == idx then c.amount else 0
    {
      SumByAppend(claims, c, ClaimedFor(i));
    }
  }
}
