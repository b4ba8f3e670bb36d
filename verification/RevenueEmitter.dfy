/**
 The revenue emitter: a log of revenue ticks behind an emitter role, with a two-step transfer of ownership.
 The abstract value keeps every event ever emitted; the contract keeps a ring of them and one total per asset.
 */
module RevenueEmitter {
  import opened Prelude
  import opened RingBuffer

  datatype RevenueEvent = RevenueEvent(
    timestamp: U64, amount: U256, asset: Address, source: string, emitter: Address, reference: string)

  datatype Reason =
    | ContractPaused | OnlyOwner | NothingPending | NotPendingOwner
    | NotAuthorized | ZeroAmount | TextTooLong | Overflow

  datatype Verdict = Done | Reverted(reason: Reason)

  datatype Call =
    | TransferOwnership(newOwner: Address)
    | AcceptOwnership
    | SetEmitter(newEmitter: Address)
    | SetPaused(paused: bool)
    | Emit(amount: U256, asset: Address, source: string, reference: string)

  datatype Tx = Tx(caller: Address, now: U64, call: Call)

  /** `pending` is the zero address while nobody is nominated. */
  datatype Registry = Registry(
    owner: Address, emitter: Address, pending: Address, paused: bool, cap: U32, history: seq<RevenueEvent>)

  function Init(owner: Address, emitter: Address, maxHistory: U32): Registry {
    Registry(owner, emitter, ZERO_ADDRESS, false, Max(maxHistory, 1), [])
  }

  function Amount(e: RevenueEvent): nat { e.amount }
  function Asset(e: RevenueEvent): Address { e.asset }
  function AmountIn(asset: Address): RevenueEvent -> nat { Fibre(Amount, Asset, asset) }

  lemma AmountInAt(asset: Address, e: RevenueEvent)
    ensures AmountIn(asset)(e) == if e.asset == asset then e.amount else 0
  {
    var f: RevenueEvent -> nat, key: RevenueEvent -> Address := Amount, Asset;
    assert f(e) == e.amount && key(e) == e.asset;
    assert Fibre(f, key, asset)(e) == if key(e) == asset then f(e) else 0;
  }

  ghost function Emitted(r: Registry, asset: Address): nat { SumBy(r.history, AmountIn(asset)) }

  ghost function Judge(r: Registry, tx: Tx): Verdict {
    match tx.call
    case TransferOwnership(_) => if tx.caller == r.owner then Done else Reverted(OnlyOwner)
    case AcceptOwnership =>
      if r.pending == ZERO_ADDRESS then Reverted(NothingPending)
      else if tx.caller != r.pending then Reverted(NotPendingOwner)
      else Done
    case SetEmitter(_) => if tx.caller == r.owner then Done else Reverted(OnlyOwner)
    case SetPaused(_) => if tx.caller == r.owner then Done else Reverted(OnlyOwner)
    case Emit(amount, asset, source, reference) =>
      if r.paused then Reverted(ContractPaused)
      else if tx.caller != r.emitter && tx.caller != r.owner then Reverted(NotAuthorized)
      else if amount == 0 then Reverted(ZeroAmount)
      else if |source| > 64 || |reference| > 128 then Reverted(TextTooLong)
      else if Emitted(r, asset) + amount >= U256_SIZE then Reverted(Overflow)
      else Done
  }

  ghost function Step(r: Registry, tx: Tx): Registry {
    if Judge(r, tx) != Done then r else
      match tx.call
      case TransferOwnership(to) => r.(pending := to)
      case AcceptOwnership => r.(owner := tx.caller, pending := ZERO_ADDRESS)
      case SetEmitter(e) => r.(emitter := e)
      case SetPaused(p) => r.(paused := p)
      case Emit(amount, asset, source, reference) =>
        r.(history := r.history + [RevenueEvent(tx.now, amount, asset, source, tx.caller, reference)])
  }

  /** The state after all of txs. */
  ghost function Run(r: Registry, txs: seq<Tx>): Registry {
    if txs == [] then r else Step(Run(r, txs[..|txs| - 1]), txs[|txs| - 1])
  }

  ghost function At(r: Registry, txs: seq<Tx>, i: nat): Registry
    requires i <= |txs|
  {
    Run(r, txs[..i])
  }

  lemma AtNext(r: Registry, txs: seq<Tx>, i: nat)
    requires i < |txs|
    ensures At(r, txs, i + 1) == Step(At(r, txs, i), txs[i])
  {
    assert txs[..i + 1][..i] == txs[..i];
  }

  // ---- what each call does, and when it is refused ----

  /**
   The log grows iff emitter or owner emits, unpaused, a positive amount with short texts that the asset's total can
   take; then by exactly that event. The first guard that fails gives the reason.
   */
  lemma EmitIff(r: Registry, tx: Tx)
    requires tx.call.Emit?
    ensures var c, r', v := tx.call, Step(r, tx), Judge(r, tx);
            var may := tx.caller == r.emitter || tx.caller == r.owner;
            var fits := |c.source| <= 64 && |c.reference| <= 128;
            var room := Emitted(r, c.asset) + c.amount < U256_SIZE;
            var ok := !r.paused && may && c.amount > 0 && fits && room;
            && (|r'.history| == |r.history| + 1 <==> ok)
            && r' == (if ok then r.(history := r.history +
                        [RevenueEvent(tx.now, c.amount, c.asset, c.source, tx.caller, c.reference)]) else r)
            && (v == Done <==> ok)
            && (v == Reverted(ContractPaused) <==> r.paused)
            && (v == Reverted(NotAuthorized) <==> !r.paused && !may)
            && (v == Reverted(ZeroAmount) <==> !r.paused && may && c.amount == 0)
            && (v == Reverted(TextTooLong) <==> !r.paused && may && c.amount > 0 && !fits)
            && (v == Reverted(Overflow) <==> !r.paused && may && c.amount > 0 && fits && !room)
  {
  }

  /** The owner alone nominates, moves the emitter and moves the pause flag; only the nominee accepts. */
  lemma OwnerCalls(r: Registry, tx: Tx)
    ensures var r', byOwner := Step(r, tx), tx.caller == r.owner;
            match tx.call
            case TransferOwnership(to) => r' == r.(pending := if byOwner then to else r.pending)
            case AcceptOwnership =>
              var mine := r.pending != ZERO_ADDRESS && tx.caller == r.pending;
              && r' == (if mine then r.(owner := tx.caller, pending := ZERO_ADDRESS) else r)
              && Judge(r, tx) == (if mine then Done
                                  else Reverted(if r.pending == ZERO_ADDRESS then NothingPending else NotPendingOwner))
            case SetEmitter(e) => r' == r.(emitter := if byOwner then e else r.emitter)
            case SetPaused(p) => r' == r.(paused := if byOwner then p else r.paused)
            case Emit(_, _, _, _) => r' == r.(history := r'.history)
    ensures tx.call.TransferOwnership? || tx.call.SetEmitter? || tx.call.SetPaused? ==>
              Judge(r, tx) == if tx.caller == r.owner then Done else Reverted(OnlyOwner)
  {
  }

  // ---- ownership over runs ----

  /** Call j made the nomination that is in force just before call i, and the owner at j is the owner at i. */
  ghost predicate Nomination(r: Registry, txs: seq<Tx>, j: nat, i: nat)
    requires i <= |txs|
  {
    && j < i
    && txs[j].call.TransferOwnership?
    && txs[j].caller == At(r, txs, j).owner
    && forall k :: j < k <= i ==>
         && At(r, txs, k).pending == txs[j].call.newOwner
         && At(r, txs, k).owner == At(r, txs, j).owner
         && (k < i ==> !(txs[k].call.TransferOwnership? && Judge(At(r, txs, k), txs[k]) == Done))
  }

  lemma NominationMade(r: Registry, txs: seq<Tx>, i: nat)
    requires i < |txs| && txs[i].call.TransferOwnership? && Judge(At(r, txs, i), txs[i]) == Done
    ensures Nomination(r, txs, i, i + 1)
  {
    AtNext(r, txs, i);
  }

  lemma NominationKept(r: Registry, txs: seq<Tx>, j: nat, i: nat)
    requires i < |txs| && Nomination(r, txs, j, i)
    requires !(txs[i].call.TransferOwnership? && Judge(At(r, txs, i), txs[i]) == Done)
    requires At(r, txs, i + 1).pending != ZERO_ADDRESS
    ensures Nomination(r, txs, j, i + 1)
  {
    AtNext(r, txs, i);
  }

  lemma {:induction false} PendingWasNominated(r: Registry, txs: seq<Tx>, i: nat) returns (j: nat)
    requires r.pending == ZERO_ADDRESS && i <= |txs|
    ensures At(r, txs, i).pending != ZERO_ADDRESS ==> Nomination(r, txs, j, i)
  {
    j := 0;
    if i > 0 {
      AtNext(r, txs, i - 1);
      if txs[i - 1].call.TransferOwnership? && Judge(At(r, txs, i - 1), txs[i - 1]) == Done {
        j := i - 1;
        NominationMade(r, txs, j);
      } else {
        j := PendingWasNominated(r, txs, i - 1);
        if At(r, txs, i).pending != ZERO_ADDRESS {
          NominationKept(r, txs, j, i - 1);
        }
      }
    }
  }

  /**
   Whenever the owner changes, the call is an acceptance by the new owner, whom the owner then in force
   had nominated; and that was the latest nomination.
   */
  lemma OwnerChangesOnlyByAcceptance(owner: Address, emitter: Address, maxHistory: U32, txs: seq<Tx>, i: nat)
    requires i < |txs|
    ensures var r := Init(owner, emitter, maxHistory);
            At(r, txs, i + 1).owner != At(r, txs, i).owner ==>
              && txs[i].call.AcceptOwnership? && At(r, txs, i + 1).owner == txs[i].caller
              && exists j: nat :: Nomination(r, txs, j, i) && txs[j].call.newOwner == txs[i].caller
  {
    var r := Init(owner, emitter, maxHistory);
    AtNext(r, txs, i);
    if At(r, txs, i + 1).owner != At(r, txs, i).owner {
      var j := PendingWasNominated(r, txs, i);
      assert Nomination(r, txs, j, i) && At(r, txs, i).pending == txs[j].call.newOwner;
    }
  }

  /** Two acceptances never use the same nomination: the second one's was made after the first acceptance. */
  lemma NominationConsumedOnce(r: Registry, txs: seq<Tx>, j1: nat, i1: nat, j2: nat, i2: nat)
    requires i1 < i2 < |txs|
    requires txs[i1].call.AcceptOwnership? && Judge(At(r, txs, i1), txs[i1]) == Done && Nomination(r, txs, j1, i1)
    requires txs[i2].call.AcceptOwnership? && Judge(At(r, txs, i2), txs[i2]) == Done && Nomination(r, txs, j2, i2)
    ensures j1 < i1 < j2 < i2
  {
    AtNext(r, txs, i1);
    assert At(r, txs, i1 + 1).pending == ZERO_ADDRESS;
  }

  // ---- the log over runs ----

  /** The record of a successful emission. */
  function Logged(tx: Tx): RevenueEvent
    requires tx.call.Emit?
  {
    RevenueEvent(tx.now, tx.call.amount, tx.call.asset, tx.call.source, tx.caller, tx.call.reference)
  }

  /** Every event was emitted, unpaused, by whoever was emitter or owner then, and is logged under their name. */
  lemma {:induction false} EventsWereAuthorized(owner: Address, emitter: Address, maxHistory: U32, txs: seq<Tx>, k: nat)
    requires k < |Run(Init(owner, emitter, maxHistory), txs).history|
    ensures var r := Init(owner, emitter, maxHistory);
            exists i: nat :: i < |txs| && txs[i].call.Emit? && |At(r, txs, i).history| == k && !At(r, txs, i).paused &&
                             (txs[i].caller == At(r, txs, i).emitter || txs[i].caller == At(r, txs, i).owner) &&
                             Run(r, txs).history[k] == Logged(txs[i])
    decreases |txs|
  {
    var r, n := Init(owner, emitter, maxHistory), |txs| - 1;
    var before := txs[..n];
    assert At(r, txs, n) == Run(r, before);
    if k < |Run(r, before).history| {
      EventsWereAuthorized(owner, emitter, maxHistory, before, k);
      var i: nat :| i < n && before[i].call.Emit? && |At(r, before, i).history| == k && !At(r, before, i).paused &&
                    (before[i].caller == At(r, before, i).emitter || before[i].caller == At(r, before, i).owner) &&
                    Run(r, before).history[k] == Logged(before[i]);
      assert before[..i] == txs[..i];
      assert txs[i] == before[i];
    } else {
      assert txs[n].call.Emit?;
    }
  }

  // ---- the contract ----

  class RevenueEmitter {
    var owner: Address
    var emitter: Address
    var pendingOwner: Address
    var paused: bool
    const events: Ring<RevenueEvent>
    var totalEmitted: map<Address, U256>
    ghost var registry: Registry

    ghost predicate Valid()
      reads this, events
    {
      && events.Valid()
      && registry == Registry(owner, emitter, pendingOwner, paused, events.cap, events.history)
      && TotalsExact(registry, totalEmitted)
    }

    constructor (owner: Address, emitter: Address, maxHistory: U32)
      ensures Valid() && fresh(events) && registry == Init(owner, emitter, maxHistory)
      ensures this.owner == owner && this.emitter == emitter && pendingOwner == ZERO_ADDRESS && !paused
      ensures events.cap == if maxHistory == 0 then 1 else maxHistory
    {
      this.owner, this.emitter, pendingOwner, paused := owner, emitter, ZERO_ADDRESS, false;
      events := new Ring<RevenueEvent>(Max(maxHistory, 1));
      totalEmitted := map[];
      registry := Init(owner, emitter, maxHistory);
    }

    method TransferOwnership(caller: Address, now: U64, newOwner: Address) returns (v: Verdict)
      requires Valid()
      modifies this
      ensures Valid() && v == Judge(old(registry), Tx(caller, now, Call.TransferOwnership(newOwner)))
      ensures registry == Step(old(registry), Tx(caller, now, Call.TransferOwnership(newOwner)))
    {
      if caller != owner {
        return Reverted(OnlyOwner);
      }
      pendingOwner := newOwner;
      registry := registry.(pending := newOwner);
      v := Done;
    }

    method AcceptOwnership(caller: Address, now: U64) returns (v: Verdict)
      requires Valid()
      modifies this
      ensures Valid() && v == Judge(old(registry), Tx(caller, now, Call.AcceptOwnership))
      ensures registry == Step(old(registry), Tx(caller, now, Call.AcceptOwnership))
    {
      if pendingOwner == ZERO_ADDRESS {
        return Reverted(NothingPending);
      }
      if caller != pendingOwner {
        return Reverted(NotPendingOwner);
      }
      owner := caller;
      pendingOwner := ZERO_ADDRESS;
      registry := registry.(owner := caller, pending := ZERO_ADDRESS);
      v := Done;
    }

    method SetEmitter(caller: Address, now: U64, newEmitter: Address) returns (v: Verdict)
      requires Valid()
      modifies this
      ensures Valid() && v == Judge(old(registry), Tx(caller, now, Call.SetEmitter(newEmitter)))
      ensures registry == Step(old(registry), Tx(caller, now, Call.SetEmitter(newEmitter)))
    {
      if caller != owner {
        return Reverted(OnlyOwner);
      }
      emitter := newEmitter;
      registry := registry.(emitter := newEmitter);
      v := Done;
    }

    method SetPaused(caller: Address, now: U64, p: bool) returns (v: Verdict)
      requires Valid()
      modifies this
      ensures Valid() && v == Judge(old(registry), Tx(caller, now, Call.SetPaused(p)))
      ensures registry == Step(old(registry), Tx(caller, now, Call.SetPaused(p)))
    {
      if caller != owner {
        return Reverted(OnlyOwner);
      }
      paused := p;
      registry := registry.(paused := p);
      v := Done;
    }

    method EmitRevenue(caller: Address, now: U64, amount: U256, asset: Address, source: string, reference: string)
      returns (v: Verdict)
      requires Valid()
      modifies this, events
      ensures Valid() && v == Judge(old(registry), Tx(caller, now, Emit(amount, asset, source, reference)))
      ensures registry == Step(old(registry), Tx(caller, now, Emit(amount, asset, source, reference)))
    {
      if paused {
        return Reverted(ContractPaused);
      }
      if caller != emitter && caller != owner {
        return Reverted(NotAuthorized);
      }
      if amount == 0 {
        return Reverted(ZeroAmount);
      }
      if |source| > 64 || |reference| > 128 {
        return Reverted(TextTooLong);
      }
      var prev := Lookup(totalEmitted, asset);
      assert prev == Emitted(registry, asset);
      if prev + amount >= U256_SIZE {
        return Reverted(Overflow);
      }
      Log(RevenueEvent(now, amount, asset, source, caller, reference));
      v := Done;
    }

    /** The bookkeeping of an event that passed its guards. */
    method Log(e: RevenueEvent)
      requires Valid() && Lookup(totalEmitted, e.asset) + e.amount < U256_SIZE
      modifies this, events
      ensures Valid() && registry == old(registry).(history := old(registry).history + [e])
    {
      EmitKeepsTotals(registry, e, totalEmitted);
      events.Push(e);
      totalEmitted := totalEmitted[e.asset := Lookup(totalEmitted, e.asset) + e.amount];
      registry := registry.(history := registry.history + [e]);
    }

    /** The most recent `limit` of the events the ring keeps, out of all ever emitted, oldest first. */
    method GetRecentEvents(limit: U32) returns (r: seq<RevenueEvent>)
      requires Valid()
      ensures |registry.history| < events.cap || WalkFits(events.head, events.cap, Min(limit, events.cap)) ==>
                r == LastN(registry.history, Min(limit, Min(events.cap, |registry.history|)))
    {
      r := events.Recent(limit);
    }

    /** Per-asset totals survive overwriting, and together they are everything ever emitted. */
    lemma TotalsCoverHistory()
      requires Valid()
      ensures forall asset :: Lookup(totalEmitted, asset) == Emitted(registry, asset)
      ensures SumValues(totalEmitted) == SumBy(registry.history, Amount)
    {
      var key: RevenueEvent -> Address := Asset;
      forall asset | asset in totalEmitted
        ensures totalEmitted[asset] == SumBy(registry.history, Fibre(Amount, key, asset))
      {
        assert Lookup(totalEmitted, asset) == Emitted(registry, asset);
      }
      SumOfFibres(registry.history, Amount, key, totalEmitted);
    }
  }

  ghost predicate TotalsExact(r: Registry, totals: map<Address, U256>) {
    && (forall i :: 0 <= i < |r.history| ==> r.history[i].asset in totals)
    && forall asset :: Lookup(totals, asset) == Emitted(r, asset)
  }

  lemma EmitKeepsTotals(r: Registry, e: RevenueEvent, totals: map<Address, U256>)
    requires TotalsExact(r, totals) && Lookup(totals, e.asset) + e.amount < U256_SIZE
    ensures TotalsExact(r.(history := r.history + [e]), totals[e.asset := Lookup(totals, e.asset) + e.amount])
  {
    var r', totals' := r.(history := r.history + [e]), totals[e.asset := Lookup(totals, e.asset) + e.amount];
    forall asset ensures Lookup(totals', asset) == Emitted(r', asset) {
      SumByAppend(r.history, e, AmountIn(asset));
      AmountInAt(asset, e);
      assert Lookup(totals, asset) == Emitted(r, asset);
    }
  }
}
