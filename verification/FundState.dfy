/** The local fund cache: one record, replaced as a whole by every `record*` function. */
module FundState {
  datatype FundState = FundState(
    positionsOpened: nat, positionsRealised: nat, yieldRealisedMotes: nat, custodianMotes: nat,
    stakeholderDeposits: nat, stakeholderActiveMotes: nat, stakeholderTotalMotes: nat, stakeholderWithdrawnMotes: nat,
    lastUpdated: nat)

  function DefaultState(now: nat): FundState {
    FundState(0, 0, 0, 0, 0, 0, 0, 0, now)
  }

  datatype Event =
    | CustodianDeposit(motes: nat)
    | CustodianWithdraw(motes: nat)
    | PositionOpened
    | YieldClaimed(motes: nat)
    | StakeholderDeposit(motes: nat, withdrawn: nat)
    | StakeholderWithdrawal(motes: nat)
    | ResetAll

  /** Subtraction floored at zero. */
  function Minus(a: nat, b: nat): nat {
    if a > b then a - b else 0
  }

  function Apply(c: FundState, e: Event, now: nat): FundState {
    var c := c.(lastUpdated := now);
    match e
    case CustodianDeposit(m) => c.(custodianMotes := c.custodianMotes + m)
    case CustodianWithdraw(m) => c.(custodianMotes := Minus(c.custodianMotes, m))
    case PositionOpened => c.(positionsOpened := c.positionsOpened + 1)
    case YieldClaimed(m) =>
      c.(positionsRealised := c.positionsRealised + 1, yieldRealisedMotes := c.yieldRealisedMotes + m)
    case StakeholderDeposit(m, w) =>
      c.(stakeholderDeposits := c.stakeholderDeposits + 1,
         stakeholderActiveMotes := c.stakeholderActiveMotes + m,
         stakeholderTotalMotes := c.stakeholderTotalMotes + m,
         stakeholderWithdrawnMotes := c.stakeholderWithdrawnMotes + w)
    case StakeholderWithdrawal(m) =>
      c.(stakeholderActiveMotes := Minus(c.stakeholderActiveMotes, m),
         stakeholderWithdrawnMotes := c.stakeholderWithdrawnMotes + m)
    case ResetAll => DefaultState(now)
  }

  function Replay(c: FundState, events: seq<(Event, nat)>): FundState
    decreases |events|
  {
    if events == [] then c else Replay(Apply(c, events[0].0, events[0].1), events[1..])
  }

  lemma {:induction false} CoveredKept(c: FundState, events: seq<(Event, nat)>)
    requires c.stakeholderTotalMotes <= c.stakeholderActiveMotes + c.stakeholderWithdrawnMotes
    ensures var c' := Replay(c, events);
            c'.stakeholderTotalMotes <= c'.stakeholderActiveMotes + c'.stakeholderWithdrawnMotes
    decreases |events|
  {
    if events != [] {
      CoveredKept(Apply(c, events[0].0, events[0].1), events[1..]);
    }
  }

  /** Whatever is recorded, in whatever order, the cache never shows more deposited than active plus withdrawn. */
  lemma TotalCovered(started: nat, events: seq<(Event, nat)>)
    ensures var c := Replay(DefaultState(started), events);
            c.stakeholderTotalMotes <= c.stakeholderActiveMotes + c.stakeholderWithdrawnMotes
  {
    CoveredKept(DefaultState(started), events);
  }

  predicate NoReset(events: seq<(Event, nat)>) {
    forall i :: 0 <= i < |events| ==> !events[i].0.ResetAll?
  }

  function Tally(events: seq<(Event, nat)>, f: Event -> nat): nat {
    if events == [] then 0 else f(events[0].0) + Tally(events[1..], f)
  }

  function Opened(e: Event): nat { if e.PositionOpened? then 1 else 0 }
  function TimesClaimed(e: Event): nat { if e.YieldClaimed? then 1 else 0 }
  function Claimed(e: Event): nat { if e.YieldClaimed? then e.motes else 0 }
  function TakenIn(e: Event): nat { if e.CustodianDeposit? then e.motes else 0 }
  function GivenOut(e: Event): nat { if e.CustodianWithdraw? then e.motes else 0 }
  function TimesDeposited(e: Event): nat { if e.StakeholderDeposit? then 1 else 0 }
  function Deposited(e: Event): nat { if e.StakeholderDeposit? then e.motes else 0 }
  function Withdrawn(e: Event): nat {
    match e
    case StakeholderDeposit(_, withdrawn) => withdrawn
    case StakeholderWithdrawal(motes) => motes
    case _ => 0
  }

  /** Every withdrawal finds its amount in the cached custody. */
  predicate Covered(c: FundState, events: seq<(Event, nat)>)
    decreases |events|
  {
    events == [] ||
    (&& (events[0].0.CustodianWithdraw? ==> events[0].0.motes <= c.custodianMotes)
     && Covered(Apply(c, events[0].0, events[0].1), events[1..]))
  }

  /**
   Until a reset every figure that only grows is the tally of its events; custody is never less than what came in less
   what went out, and exactly that iff no withdrawal exceeded it.
   */
  lemma {:induction false} ReplayAddsUp(c: FundState, events: seq<(Event, nat)>)
    requires NoReset(events)
    ensures var c' := Replay(c, events);
            && c'.positionsOpened == c.positionsOpened + Tally(events, Opened)
            && c'.positionsRealised == c.positionsRealised + Tally(events, TimesClaimed)
            && c'.yieldRealisedMotes == c.yieldRealisedMotes + Tally(events, Claimed)
            && c'.stakeholderDeposits == c.stakeholderDeposits + Tally(events, TimesDeposited)
            && c'.stakeholderTotalMotes == c.stakeholderTotalMotes + Tally(events, Deposited)
            && c'.stakeholderWithdrawnMotes == c.stakeholderWithdrawnMotes + Tally(events, Withdrawn)
    ensures var c', net := Replay(c, events), Tally(events, TakenIn) - Tally(events, GivenOut);
            && c'.custodianMotes >= c.custodianMotes + net
            && (c'.custodianMotes == c.custodianMotes + net <==> Covered(c, events))
    ensures events != [] ==> Replay(c, events).lastUpdated == events[|events| - 1].1
    decreases |events|
  {
    if events != [] {
      ReplayAddsUp(Apply(c, events[0].0, events[0].1), events[1..]);
    }
  }

  /** A reset forgets everything before it. */
  lemma {:induction false} ResetForgets(c: FundState, before: seq<(Event, nat)>, at: nat)
    ensures Replay(c, before + [(ResetAll, at)]) == FundState(0, 0, 0, 0, 0, 0, 0, 0, at)
    decreases |before|
  {
    var all := before + [(ResetAll, at)];
    if before == [] {
      assert all[1..] == [];
    } else {
      assert all[1..] == before[1..] + [(ResetAll, at)];
      ResetForgets(Apply(c, before[0].0, before[0].1), before[1..], at);
    }
  }

  class FundCache {
    var cache: FundState

    constructor (now: nat)
      ensures cache == DefaultState(now)
    {
      cache := DefaultState(now);
    }

    method RecordCustodianDeposit(motes: nat, now: nat)
      modifies this
      ensures cache == Apply(old(cache), CustodianDeposit(motes), now)
    {
      cache := cache.(custodianMotes := cache.custodianMotes + motes, lastUpdated := now);
    }

    method RecordPositionOpened(now: nat)
      modifies this
      ensures cache == Apply(old(cache), PositionOpened, now)
    {
      cache := cache.(positionsOpened := cache.positionsOpened + 1, lastUpdated := now);
    }

    method RecordStakeholderDeposit(amountMotes: nat, withdrawn: nat, now: nat)
      modifies this
      ensures cache == Apply(old(cache), StakeholderDeposit(amountMotes, withdrawn), now)
    {
      cache := cache.(
        stakeholderDeposits := cache.stakeholderDeposits + 1,
        stakeholderActiveMotes := cache.stakeholderActiveMotes + amountMotes,
        stakeholderTotalMotes := cache.stakeholderTotalMotes + amountMotes,
        stakeholderWithdrawnMotes := cache.stakeholderWithdrawnMotes + withdrawn,
        lastUpdated := now);
    }

    method RecordStakeholderWithdrawal(amountMotes: nat, now: nat)
      modifies this
      ensures cache == Apply(old(cache), StakeholderWithdrawal(amountMotes), now)
    {
      var active := cache.stakeholderActiveMotes;
      cache := cache.(
        stakeholderActiveMotes := if active > amountMotes then active - amountMotes else 0,
        stakeholderWithdrawnMotes := cache.stakeholderWithdrawnMotes + amountMotes,
        lastUpdated := now);
    }
  }
}
