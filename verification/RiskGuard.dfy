/**
 The circuit breaker. Its state is a small record in a file that every operation loads, changes and saves;
 here the file's content is the field `file`. What the record means is defined from the log of all events.
 */
module RiskGuard {
  import opened Prelude

  const TRIP_COOLDOWN_MS: nat := 600_000

  datatype RiskState = RiskState(
    peakMotes: nat, lastValueMotes: nat, revertStreak: nat, trippedUntil: nat,
    totalStrategies: nat, totalSuccesses: nat, totalReverts: nat)

  const DEFAULT_STATE := RiskState(0, 0, 0, 0, 0, 0, 0)

  datatype StrategyOutcome = Success | Reverted | Failed

  datatype Limits = Limits(maxDrawdownPct: real, maxRevertStreak: nat)

  datatype Event = Outcome(outcome: StrategyOutcome, at: nat) | Snapshot(value: nat) | Reset

  // ---- what a log of events means ----

  function IsOutcome(e: Event): nat { if e.Outcome? then 1 else 0 }
  function IsSuccess(e: Event): nat { if e.Outcome? && e.outcome == Success then 1 else 0 }
  function IsRevert(e: Event): nat { if e.Outcome? && e.outcome != Success then 1 else 0 }

  predicate Clears(e: Event) {
    e.Reset? || (e.Outcome? && e.outcome == Success)
  }

  /** Just after the last success or reset. */
  function LastClear(log: seq<Event>): (i: nat)
    ensures i <= |log|
    ensures i > 0 ==> Clears(log[i - 1])
    ensures forall k :: i <= k < |log| ==> !Clears(log[k])
  {
    if log == [] then 0 else if Clears(log[|log| - 1]) then |log| else LastClear(log[..|log| - 1])
  }

  ghost function Streak(log: seq<Event>): nat { SumBy(log[LastClear(log)..], IsRevert) }

  /** The largest snapshot, or 0 before the first. */
  function Peak(log: seq<Event>): (p: nat)
    ensures forall k :: 0 <= k < |log| && log[k].Snapshot? ==> log[k].value <= p
    ensures p == 0 || Snapshot(p) in log
  {
    if log == [] then 0 else
      var p, e := Peak(log[..|log| - 1]), log[|log| - 1];
      if e.Snapshot? && e.value > p then e.value else p
  }

  function LastValue(log: seq<Event>): nat {
    if log == [] then 0 else if log[|log| - 1].Snapshot? then log[|log| - 1].value else LastValue(log[..|log| - 1])
  }

  /** The cooldown set by the last outcome that found the streak at its limit, unless a reset came after it. */
  ghost function CooldownEnd(log: seq<Event>, maxStreak: nat): nat {
    if log == [] then 0 else
      var e := log[|log| - 1];
      if e.Reset? then 0
      else if e.Outcome? && e.outcome != Success && Streak(log) >= maxStreak then e.at + TRIP_COOLDOWN_MS
      else CooldownEnd(log[..|log| - 1], maxStreak)
  }

  ghost function Meaning(log: seq<Event>, maxStreak: nat): RiskState {
    RiskState(Peak(log), LastValue(log), Streak(log), CooldownEnd(log, maxStreak),
              SumBy(log, IsOutcome), SumBy(log, IsSuccess), SumBy(log, IsRevert))
  }

  // ---- one operation on the record ----

  function AfterOutcome(s: RiskState, o: StrategyOutcome, at: nat, maxStreak: nat): RiskState {
    if o == Success then
      s.(totalStrategies := s.totalStrategies + 1, totalSuccesses := s.totalSuccesses + 1, revertStreak := 0)
    else
      s.(totalStrategies := s.totalStrategies + 1, totalReverts := s.totalReverts + 1,
         revertStreak := s.revertStreak + 1,
         trippedUntil := if s.revertStreak + 1 >= maxStreak then at + TRIP_COOLDOWN_MS else s.trippedUntil)
  }

  function AfterSnapshot(s: RiskState, v: nat): RiskState {
    s.(lastValueMotes := v, peakMotes := Max(s.peakMotes, v))
  }

  function After(s: RiskState, e: Event, maxStreak: nat): RiskState {
    match e
    case Outcome(o, at) => AfterOutcome(s, o, at, maxStreak)
    case Snapshot(v) => AfterSnapshot(s, v)
    case Reset => s.(trippedUntil := 0, revertStreak := 0)
  }

  lemma StreakStep(log: seq<Event>, e: Event)
    ensures Streak(log + [e]) == if Clears(e) then 0 else Streak(log) + IsRevert(e)
  {
    var log' := log + [e];
    assert log'[..|log|] == log;
    if Clears(e) {
      assert log'[LastClear(log')..] == [];
    } else {
      assert log'[LastClear(log')..] == log[LastClear(log)..] + [e];
      SumByAppend(log[LastClear(log)..], e, IsRevert);
    }
  }

  /** The record always is the meaning of the log. */
  lemma MeaningStep(log: seq<Event>, e: Event, maxStreak: nat)
    ensures Meaning(log + [e], maxStreak) == After(Meaning(log, maxStreak), e, maxStreak)
  {
    StreakStep(log, e);
    assert (log + [e])[..|log|] == log;
  }

  /** Lifetime counters always split, whatever the log. */
  lemma CountersSplit(log: seq<Event>, maxStreak: nat)
    ensures var s := Meaning(log, maxStreak);
            s.totalStrategies == s.totalSuccesses + s.totalReverts && s.revertStreak <= s.totalReverts
  {
    SumByAdd(log, IsSuccess, IsRevert, IsOutcome);
    assert log == log[..LastClear(log)] + log[LastClear(log)..];
    SumBySplit(log[..LastClear(log)], log[LastClear(log)..], IsRevert);
  }

  // ---- tripping ----

  function DrawdownPct(s: RiskState): real {
    if s.peakMotes == 0 || s.lastValueMotes >= s.peakMotes then 0.0
    else Quotient((s.peakMotes - s.lastValueMotes) * 10_000, s.peakMotes) as real / 100.0
  }

  predicate Tripped(s: RiskState, lim: Limits, now: nat) {
    s.trippedUntil > now || DrawdownPct(s) > lim.maxDrawdownPct || s.revertStreak >= lim.maxRevertStreak
  }

  lemma QuotientAbove(n: nat, d: nat, k: nat)
    requires d > 0
    ensures Quotient(n, d) > k <==> n >= (k + 1) * d
  {
    var q := Quotient(n, d);
    MulAtLeast(q - k, d);
    assert (q - k) * d == q * d - k * d;
    assert (k + 1) * d == k * d + d;
  }

  /** Hundredths of a percent, rounded down, of any limit the environment can set. */
  function LimitBps(limit: real): nat
    requires limit >= 0.0
  {
    (100.0 * limit).Floor
  }

  /** For a limit of any size the drawdown trips exactly from the first hundredth of a percent above it on. */
  lemma DrawdownTripsExactly(s: RiskState, limit: real)
    requires limit >= 0.0
    ensures DrawdownPct(s) > limit <==>
            s.peakMotes > 0 && 10_000 * (s.peakMotes - s.lastValueMotes) >= (LimitBps(limit) + 1) * s.peakMotes
  {
    var k := LimitBps(limit);
    if s.peakMotes > 0 {
      if s.lastValueMotes < s.peakMotes {
        var n := (s.peakMotes - s.lastValueMotes) * 10_000;
        QuotientAbove(n, s.peakMotes, k);
        assert Quotient(n, s.peakMotes) as real > 100.0 * limit <==> Quotient(n, s.peakMotes) > k;
      } else {
        MulAtLeast(k + 1, s.peakMotes);
      }
    }
  }

  /** What the module promises: the drop is more than the limit. */
  predicate OverLimit(s: RiskState, limit: real) {
    100.0 * (s.peakMotes - s.lastValueMotes) as real > limit * s.peakMotes as real
  }

  /**
   The module promises to trip on a drop of more than the limit. It never trips on less; it misses exactly
   the drops above the limit that stay below the next hundredth of a percent.
   */
  lemma DocumentedDrawdown(s: RiskState, limit: real)
    requires limit >= 0.0
    ensures DrawdownPct(s) > limit ==> OverLimit(s, limit)
    ensures OverLimit(s, limit) ==>
              (DrawdownPct(s) > limit <==>
               10_000 * (s.peakMotes - s.lastValueMotes) >= (LimitBps(limit) + 1) * s.peakMotes)
  {
    DrawdownTripsExactly(s, limit);
    if DrawdownPct(s) > limit {
      DropOverLimit(s.peakMotes - s.lastValueMotes, LimitBps(limit) + 1, limit, s.peakMotes);
    }
  }

  lemma DropOverLimit(drop: int, bps: nat, limit: real, peak: nat)
    requires peak > 0 && 10_000 * drop >= bps * peak && bps as real > 100.0 * limit
    ensures 100.0 * drop as real > limit * peak as real
  {
    var p, scaled := peak as real, bps as real;
    RealProduct(bps, peak);
    assert 10_000.0 * drop as real >= scaled * p;
    ScaledUp(scaled, 100.0 * limit, p);
    assert 100.0 * limit * p == 100.0 * (limit * p);
  }

  lemma ScaledUp(a: real, b: real, p: real)
    requires a > b && p > 0.0
    ensures a * p > b * p
  {
    assert (a - b) * p > 0.0;
    assert (a - b) * p == a * p - b * p;
  }

  lemma {:induction false} RealProduct(a: nat, b: nat)
    ensures (a * b) as real == a as real * b as real
  {
    if b > 0 {
      RealProduct(a, b - 1);
      assert a * b == a * (b - 1) + a;
      assert a as real * b as real == a as real * (b - 1) as real + a as real;
    }
  }

  /** For a whole-percent limit m that is m + 0.01 percent of the peak. */
  lemma WholePercentTripsExactly(s: RiskState, m: nat)
    ensures DrawdownPct(s) > m as real <==>
            s.peakMotes > 0 && 10_000 * (s.peakMotes - s.lastValueMotes) >= (100 * m + 1) * s.peakMotes
  {
    DrawdownTripsExactly(s, m as real);
    assert LimitBps(m as real) == 100 * m;
  }

  lemma DocumentedDrawdownMissed()
    ensures var s := DEFAULT_STATE.(peakMotes := 100_000, lastValueMotes := 89_995);
            100 * (s.peakMotes - s.lastValueMotes) > 10 * s.peakMotes && !(DrawdownPct(s) > 10.0)
  {
    var s := DEFAULT_STATE.(peakMotes := 100_000, lastValueMotes := 89_995);
    WholePercentTripsExactly(s, 10);
  }

  /**
   With a clock that does not run back past the outcome that set it, a cooldown is never shortened by later
   successes, failures or snapshots; only a reset ends it early.
   */
  lemma {:induction false} CooldownNotShortened(log: seq<Event>, more: seq<Event>, maxStreak: nat)
    requires forall k :: 0 <= k < |more| ==> !more[k].Reset?
    requires forall k :: 0 <= k < |more| && more[k].Outcome? ==>
                           more[k].at + TRIP_COOLDOWN_MS >= CooldownEnd(log, maxStreak)
    ensures CooldownEnd(log + more, maxStreak) >= CooldownEnd(log, maxStreak)
    decreases |more|
  {
    if more == [] {
      assert log + more == log;
    } else {
      var m', e := more[..|more| - 1], more[|more| - 1];
      assert log + more == (log + m') + [e];
      assert ((log + m') + [e])[..|log + m'|] == log + m';
      CooldownNotShortened(log, m', maxStreak);
    }
  }

  /** A failure that brings the streak to its limit keeps the breaker tripped for ten minutes by the cooldown alone. */
  lemma HeldTenMinutes(log: seq<Event>, o: StrategyOutcome, at: nat, lim: Limits, now: nat)
    requires o != Success && Streak(log) + 1 >= lim.maxRevertStreak
    ensures var s := Meaning(log + [Outcome(o, at)], lim.maxRevertStreak);
            (s.trippedUntil > now <==> now < at + 600_000) && (now < at + 600_000 ==> Tripped(s, lim, now))
  {
    MeaningStep(log, Outcome(o, at), lim.maxRevertStreak);
  }

  datatype Reason = Ok | Cooldown | Drawdown | RevertStreak

  datatype CircuitBreakerState = CircuitBreakerState(
    tripped: bool, reason: Reason, drawdownPct: real, revertStreak: nat, peakMotes: nat, lastValueMotes: nat)

  class RiskGuard {
    var file: RiskState
    const limits: Limits
    ghost var log: seq<Event>

    ghost predicate Valid()
      reads this
    {
      file == Meaning(log, limits.maxRevertStreak)
    }

    constructor (limits: Limits)
      ensures Valid() && log == [] && this.limits == limits
    {
      file, this.limits, log := DEFAULT_STATE, limits, [];
    }

    method CheckCircuitBreaker(now: nat) returns (cb: CircuitBreakerState)
      ensures cb.tripped <==> Tripped(file, limits, now)
      ensures cb.tripped <==> cb.reason != Ok
      ensures cb.reason == Cooldown <==> file.trippedUntil > now
      ensures cb.reason == RevertStreak ==> file.revertStreak >= limits.maxRevertStreak
      ensures cb.reason == Drawdown ==> cb.drawdownPct > limits.maxDrawdownPct
      ensures cb.reason == RevertStreak ==> cb.drawdownPct <= limits.maxDrawdownPct
      ensures cb.drawdownPct == DrawdownPct(file) && cb.revertStreak == file.revertStreak
      ensures cb.peakMotes == file.peakMotes && cb.lastValueMotes == file.lastValueMotes
    {
      var s := file;
      if s.trippedUntil > now {
        return CircuitBreakerState(true, Cooldown, DrawdownPct(s), s.revertStreak, s.peakMotes, s.lastValueMotes);
      }
      var drawdownPct := DrawdownPct(s);
      if drawdownPct > limits.maxDrawdownPct {
        return CircuitBreakerState(true, Drawdown, drawdownPct, s.revertStreak, s.peakMotes, s.lastValueMotes);
      }
      if s.revertStreak >= limits.maxRevertStreak {
        return CircuitBreakerState(true, RevertStreak, drawdownPct, s.revertStreak, s.peakMotes, s.lastValueMotes);
      }
      cb := CircuitBreakerState(false, Ok, drawdownPct, s.revertStreak, s.peakMotes, s.lastValueMotes);
    }

    /** saveState: the record replaces the file's content. */
    method Commit(ghost e: Event, s: RiskState)
      requires Valid() && s == After(file, e, limits.maxRevertStreak)
      modifies this
      ensures Valid() && log == old(log) + [e] && file == s
    {
      MeaningStep(log, e, limits.maxRevertStreak);
      file := s;
      log := log + [e];
    }

    method RecordStrategyOutcome(outcome: StrategyOutcome, now: nat)
      requires Valid()
      modifies this
      ensures Valid() && log == old(log) + [Outcome(outcome, now)]
      ensures file == After(old(file), Outcome(outcome, now), limits.maxRevertStreak)
    {
      var s := file;
      s := s.(totalStrategies := s.totalStrategies + 1);
      if outcome == Success {
        s := s.(totalSuccesses := s.totalSuccesses + 1);
        s := s.(revertStreak := 0);
      } else {
        s := s.(totalReverts := s.totalReverts + 1);
        s := s.(revertStreak := s.revertStreak + 1);
        if s.revertStreak >= limits.maxRevertStreak {
          s := s.(trippedUntil := now + TRIP_COOLDOWN_MS);
        }
      }
      assert s == After(file, Outcome(outcome, now), limits.maxRevertStreak);
      Commit(Outcome(outcome, now), s);
    }

    method UpdatePortfolioSnapshot(value: nat)
      requires Valid()
      modifies this
      ensures Valid() && log == old(log) + [Snapshot(value)]
      ensures file == After(old(file), Snapshot(value), limits.maxRevertStreak)
    {
      var s := file;
      var peak := s.peakMotes;
      s := s.(lastValueMotes := value);
      if value > peak {
        s := s.(peakMotes := value);
      }
      Commit(Snapshot(value), s);
    }

    method ResetCircuitBreaker()
      requires Valid()
      modifies this
      ensures Valid() && log == old(log) + [Reset]
      ensures file == After(old(file), Reset, limits.maxRevertStreak)
    {
      var s := file;
      s := s.(trippedUntil := 0);
      s := s.(revertStreak := 0);
      Commit(Reset, s);
    }
  }
}
