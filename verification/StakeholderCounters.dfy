/**
 The numbers the deposit contract stores beside its records: four u64 counters and the balance mapping, moved with
 wrapping `+` and saturating `-`. What they say about the book is proved here for every run, also past 64 bits.
 */
module StakeholderCounters {
  import opened Prelude
  import opened StakeholderLedger

  datatype Counters = Counters(count: U64, deposited: U64, active: U64, withdrawn: U64, balances: map<Address, U64>)

  const ZERO := Counters(0, 0, 0, 0, map[])

  /** The additions of `deposit`. */
  function Credit(k: Counters, who: Address, amount: U64): Counters {
    Counters(AddU64(k.count, 1), AddU64(k.deposited, amount), AddU64(k.active, amount), k.withdrawn,
             k.balances[who := AddU64(Lookup(k.balances, who), amount)])
  }

  /** The subtractions and the addition of `withdraw`. */
  function Debit(k: Counters, who: Address, amount: U64): Counters {
    Counters(k.count, k.deposited, SaturatingSub(k.active, amount), AddU64(k.withdrawn, amount),
             k.balances[who := SaturatingSub(Lookup(k.balances, who), amount)])
  }

  function Count(k: Counters, b: Book, tx: Tx): Counters {
    if Judge(b, tx) != Done then k else
      match tx.call
      case MakeDeposit(amount, _, _, _, _) => Credit(k, tx.caller, amount)
      case Withdraw(id) => Debit(k, tx.caller, b.history[Find(b.history, Oldest(b), id).value].amount)
      case _ => k
  }

  function CountRun(k: Counters, b: Book, txs: seq<Tx>): Counters
    decreases |txs|
  {
    if txs == [] then k else CountRun(Count(k, b, txs[0]), Step(b, txs[0]), txs[1..])
  }

  // ---- counters against the book ----

  /** The active counter is the sum of all deposits ever made and not withdrawn. */
  ghost predicate Exact(b: Book, k: Counters) {
    k.active == StillActive(b)
  }

  ghost predicate BalancesExact(b: Book, balances: map<Address, U64>) {
    forall who :: Lookup(balances, who) == ActiveOf(b, who)
  }

  ghost predicate NotOverstated(b: Book, balances: map<Address, U64>) {
    forall who :: Lookup(balances, who) <= ActiveOf(b, who)
  }

  /**
   Holds in every reachable state. Count, lifetime and withdrawn counters are exact modulo 2^64; the active counter and
   the balances never overstate; and where the active counter is exact, so is every balance.
   */
  ghost predicate Consistent(b: Book, k: Counters) {
    && Sound(b)
    && k.count == |b.history| % U64_SIZE
    && k.deposited == Deposited(b) % U64_SIZE
    && k.withdrawn == TotalPaid(b) % U64_SIZE
    && (forall i :: 0 <= i < |b.history| ==> b.history[i].stakeholder in k.balances)
    && k.active <= StillActive(b)
    && NotOverstated(b, k.balances)
    && (Exact(b, k) ==> BalancesExact(b, k.balances))
    && (Deposited(b) < U64_SIZE ==> Exact(b, k))
  }

  lemma Bounds(b: Book)
    requires Sound(b)
    ensures |b.history| <= Deposited(b)
    ensures StillActive(b) + TotalPaid(b) == Deposited(b)
  {
    SumByCount(b.history, Amount);
    SumByAdd(b.history, ActiveAmount, WithdrawnAmount, Amount);
  }

  lemma ActiveOfBounded(b: Book, who: Address)
    ensures ActiveOf(b, who) <= StillActive(b)
  {
    forall i | 0 <= i < |b.history| ensures OwnedActive(who)(b.history[i]) <= ActiveAmount(b.history[i]) {
      OwnedActiveAt(who, b.history[i]);
    }
    SumByBelow(b.history, OwnedActive(who), ActiveAmount);
  }

  // ---- one deposit ----

  lemma AppendMeasures(b: Book, d: Deposit)
    requires d.status == Active
    ensures var b' := Append(b, d);
            && Deposited(b') == Deposited(b) + d.amount
            && StillActive(b') == StillActive(b) + d.amount
            && TotalPaid(b') == TotalPaid(b)
            && forall who :: ActiveOf(b', who) == ActiveOf(b, who) + if who == d.stakeholder then d.amount else 0
  {
    var b' := Append(b, d);
    SumByAppend(b.history, d, Amount);
    SumByAppend(b.history, d, ActiveAmount);
    forall who ensures ActiveOf(b', who) == ActiveOf(b, who) + if who == d.stakeholder then d.amount else 0 {
      SumByAppend(b.history, d, OwnedActive(who));
      OwnedActiveAt(who, d);
    }
  }

  lemma CreditBalances(b: Book, k: Counters, d: Deposit)
    requires NotOverstated(b, k.balances) && d.status == Active
    ensures NotOverstated(Append(b, d), Credit(k, d.stakeholder, d.amount).balances)
    ensures BalancesExact(b, k.balances) && StillActive(b) + d.amount < U64_SIZE ==>
              BalancesExact(Append(b, d), Credit(k, d.stakeholder, d.amount).balances)
  {
    AppendMeasures(b, d);
    ActiveOfBounded(b, d.stakeholder);
    var b', balances := Append(b, d), Credit(k, d.stakeholder, d.amount).balances;
    var prev := Lookup(k.balances, d.stakeholder);
    assert AddU64(prev, d.amount) <= prev + d.amount;
    forall who ensures Lookup(balances, who) <= ActiveOf(b', who) {
      assert Lookup(k.balances, who) <= ActiveOf(b, who);
    }
    if BalancesExact(b, k.balances) && StillActive(b) + d.amount < U64_SIZE {
      assert prev == ActiveOf(b, d.stakeholder);
      forall who ensures Lookup(balances, who) == ActiveOf(b', who) {
        assert Lookup(k.balances, who) == ActiveOf(b, who);
      }
    }
  }

  /** A deposit leaves the active counter exact if and only if it was exact and active + amount stays below 2^64. */
  lemma ExactAfterDeposit(b: Book, k: Counters, d: Deposit)
    requires Consistent(b, k) && d.status == Active
    ensures Exact(Append(b, d), Credit(k, d.stakeholder, d.amount)) <==> Exact(b, k) && k.active + d.amount < U64_SIZE
  {
    AppendMeasures(b, d);
  }

  /** Numbers only: n records, `total` deposited and at least k.active still active. */
  lemma CreditTotals(k: Counters, who: Address, amount: U64, n: nat, total: nat, stillActive: nat)
    requires k.count == n % U64_SIZE && k.deposited == total % U64_SIZE && k.active <= stillActive
    ensures var k' := Credit(k, who, amount);
            && k'.count == (n + 1) % U64_SIZE && k'.deposited == (total + amount) % U64_SIZE
            && k'.active <= stillActive + amount
  {
    AddU64Mod(n, 1);
    AddU64Mod(total, amount);
    assert AddU64(k.active, amount) <= k.active + amount;
  }

  lemma AppendKeeps(b: Book, k: Counters, d: Deposit)
    requires Consistent(b, k)
    requires d.id == (|b.history| + 1) % U64_SIZE && d.amount > 0 && d.status == Active
    ensures Consistent(Append(b, d), Credit(k, d.stakeholder, d.amount))
  {
    AppendSound(b, d);
    AppendMeasures(b, d);
    CreditTotals(k, d.stakeholder, d.amount, |b.history|, Deposited(b), StillActive(b));
    Bounds(b);
    CreditBalances(b, k, d);
    ExactAfterDeposit(b, k, d);
  }

  // ---- one withdrawal ----

  lemma PayOutMeasures(b: Book, i: nat, id: U64, to: Address, now: U64)
    requires i < |b.history| && b.history[i].status == Active && b.history[i].stakeholder == to
    ensures var b', amount := PayOut(b, i, id, to, now), b.history[i].amount;
            && Deposited(b') == Deposited(b)
            && amount <= StillActive(b) && StillActive(b') == StillActive(b) - amount
            && TotalPaid(b') == TotalPaid(b) + amount
            && amount <= ActiveOf(b, to)
            && forall who :: ActiveOf(b', who) == ActiveOf(b, who) - if who == to then amount else 0
  {
    var b' := PayOut(b, i, id, to, now);
    SumByUpdate(b.history, i, b'.history[i], Amount);
    SumByUpdate(b.history, i, b'.history[i], ActiveAmount);
    SumByAppend(b.payouts, b'.payouts[|b.payouts|], Paid);
    forall who ensures ActiveOf(b', who) == ActiveOf(b, who) - if who == to then b.history[i].amount else 0
      ensures who == to ==> b.history[i].amount <= ActiveOf(b, who)
    {
      SumByUpdate(b.history, i, b'.history[i], OwnedActive(who));
      OwnedActiveAt(who, b.history[i]);
      OwnedActiveAt(who, b'.history[i]);
    }
  }

  lemma DebitBalances(b: Book, k: Counters, i: nat, id: U64, to: Address, now: U64)
    requires NotOverstated(b, k.balances)
    requires i < |b.history| && b.history[i].status == Active && b.history[i].stakeholder == to
    ensures var b', balances := PayOut(b, i, id, to, now), Debit(k, to, b.history[i].amount).balances;
            && NotOverstated(b', balances)
            && (BalancesExact(b, k.balances) || StillActive(b') == 0 ==> BalancesExact(b', balances))
  {
    PayOutMeasures(b, i, id, to, now);
    var b', balances := PayOut(b, i, id, to, now), Debit(k, to, b.history[i].amount).balances;
    forall who ensures Lookup(balances, who) <= ActiveOf(b', who) {
      assert Lookup(k.balances, who) <= ActiveOf(b, who);
    }
    if BalancesExact(b, k.balances) {
      forall who ensures Lookup(balances, who) == ActiveOf(b', who) {
        assert Lookup(k.balances, who) == ActiveOf(b, who);
      }
    } else if StillActive(b') == 0 {
      forall who ensures Lookup(balances, who) == ActiveOf(b', who) {
        ActiveOfBounded(b', who);
        assert Lookup(balances, who) <= ActiveOf(b', who);
      }
    }
  }

  /** A withdrawal leaves the active counter exact if and only if it was exact, or nothing is left active. */
  lemma ExactAfterWithdrawal(b: Book, k: Counters, i: nat, id: U64, to: Address, now: U64)
    requires Consistent(b, k)
    requires i < |b.history| && b.history[i].status == Active && b.history[i].stakeholder == to
    ensures var b' := PayOut(b, i, id, to, now);
            Exact(b', Debit(k, to, b.history[i].amount)) <==> Exact(b, k) || StillActive(b') == 0
  {
    PayOutMeasures(b, i, id, to, now);
  }

  lemma PayOutKeeps(b: Book, k: Counters, i: nat, id: U64, to: Address, now: U64)
    requires Consistent(b, k)
    requires i < |b.history| && b.history[i].status == Active && b.history[i].stakeholder == to && b.history[i].id == id
    ensures Consistent(PayOut(b, i, id, to, now), Debit(k, to, b.history[i].amount))
  {
    PayOutSound(b, i, id, to, now);
    PayOutMeasures(b, i, id, to, now);
    AddU64Mod(TotalPaid(b), b.history[i].amount);
    DebitBalances(b, k, i, id, to, now);
    ExactAfterWithdrawal(b, k, i, id, to, now);
  }

  // ---- runs ----

  lemma CountKeeps(b: Book, k: Counters, tx: Tx)
    requires Consistent(b, k)
    ensures Consistent(Step(b, tx), Count(k, b, tx))
  {
    StepCases(b, tx);
    if tx.call.MakeDeposit? && Judge(b, tx) == Done {
      AppendKeeps(b, k, Step(b, tx).history[|b.history|]);
    } else if tx.call.Withdraw? && Judge(b, tx) == Done {
      PayOutKeeps(b, k, Find(b.history, Oldest(b), tx.call.id).value, tx.call.id, tx.caller, tx.now);
    }
  }

  lemma {:induction false} CountsKept(b: Book, k: Counters, txs: seq<Tx>)
    requires Consistent(b, k)
    ensures Consistent(Run(b, txs), CountRun(k, b, txs))
    decreases |txs|
  {
    if txs != [] {
      CountKeeps(b, k, txs[0]);
      CountsKept(Step(b, txs[0]), Count(k, b, txs[0]), txs[1..]);
    }
  }

  /** Every run from deployment, however large its amounts, ends with counters consistent with its book. */
  lemma RunConsistent(owner: Address, maxHistory: U32, txs: seq<Tx>)
    ensures Consistent(Run(Init(owner, maxHistory), txs), CountRun(ZERO, Init(owner, maxHistory), txs))
  {
    CountsKept(Init(owner, maxHistory), ZERO, txs);
  }

  /** Call i of the run is a deposit that succeeds. */
  predicate Enters(b: Book, txs: seq<Tx>, i: nat)
    requires i < |txs|
  {
    txs[i].call.MakeDeposit? && Judge(Run(b, txs[..i]), txs[i]) == Done
  }

  lemma TailOfRun(b: Book, k: Counters, txs: seq<Tx>, i: nat)
    requires i + 1 < |txs|
    ensures var b', k', rest := Step(b, txs[0]), Count(k, b, txs[0]), txs[1..];
            && rest[i] == txs[i + 1]
            && Run(b', rest[..i]) == Run(b, txs[..i + 1])
            && CountRun(k', b', rest[..i]) == CountRun(k, b, txs[..i + 1])
            && Enters(b', rest, i) == Enters(b, txs, i + 1)
  {
    assert txs[..i + 1][0] == txs[0] && txs[..i + 1][1..] == txs[1..][..i];
  }

  lemma ExactStep(b: Book, k: Counters, tx: Tx)
    requires Consistent(b, k) && Exact(b, k)
    requires tx.call.MakeDeposit? && Judge(b, tx) == Done ==> k.active + tx.call.amount < U64_SIZE
    ensures Exact(Step(b, tx), Count(k, b, tx))
  {
    StepCases(b, tx);
    if tx.call.MakeDeposit? && Judge(b, tx) == Done {
      ExactAfterDeposit(b, k, Step(b, tx).history[|b.history|]);
    } else if tx.call.Withdraw? && Judge(b, tx) == Done {
      ExactAfterWithdrawal(b, k, Find(b.history, Oldest(b), tx.call.id).value, tx.call.id, tx.caller, tx.now);
    }
  }

  lemma {:induction false} ExactKept(b: Book, k: Counters, txs: seq<Tx>)
    requires Consistent(b, k) && Exact(b, k)
    requires forall i :: 0 <= i < |txs| && Enters(b, txs, i) ==>
               CountRun(k, b, txs[..i]).active + txs[i].call.amount < U64_SIZE
    ensures Exact(Run(b, txs), CountRun(k, b, txs)) && BalancesExact(Run(b, txs), CountRun(k, b, txs).balances)
    decreases |txs|
  {
    if txs != [] {
      var b', k', rest := Step(b, txs[0]), Count(k, b, txs[0]), txs[1..];
      assert txs[..0] == [] && Enters(b, txs, 0) == (txs[0].call.MakeDeposit? && Judge(b, txs[0]) == Done);
      ExactStep(b, k, txs[0]);
      CountKeeps(b, k, txs[0]);
      forall i | 0 <= i < |rest| && Enters(b', rest, i)
        ensures CountRun(k', b', rest[..i]).active + rest[i].call.amount < U64_SIZE
      {
        TailOfRun(b, k, txs, i);
      }
      ExactKept(b', k', rest);
    }
  }

  /**
   If every successful deposit of a run finds `total_active + amount < 2^64`, whatever the lifetime total, the active
   counter and every balance are exact at the end of it.
   */
  lemma RunExact(owner: Address, maxHistory: U32, txs: seq<Tx>)
    requires var b := Init(owner, maxHistory);
             forall i :: 0 <= i < |txs| && Enters(b, txs, i) ==>
               CountRun(ZERO, b, txs[..i]).active + txs[i].call.amount < U64_SIZE
    ensures var b, k := Run(Init(owner, maxHistory), txs), CountRun(ZERO, Init(owner, maxHistory), txs);
            Exact(b, k) && BalancesExact(b, k.balances)
  {
    ExactKept(Init(owner, maxHistory), ZERO, txs);
  }

  lemma StepDeposited(b: Book, tx: Tx)
    ensures Deposited(Step(b, tx)) ==
            Deposited(b) + if tx.call.MakeDeposit? && Judge(b, tx) == Done then tx.call.amount else 0
  {
    StepCases(b, tx);
    if tx.call.MakeDeposit? && Judge(b, tx) == Done {
      AppendMeasures(b, Step(b, tx).history[|b.history|]);
    } else if tx.call.Withdraw? && Judge(b, tx) == Done {
      PayOutMeasures(b, Find(b.history, Oldest(b), tx.call.id).value, tx.call.id, tx.caller, tx.now);
    }
  }

  lemma {:induction false} BoundedKept(b: Book, k: Counters, txs: seq<Tx>)
    requires Consistent(b, k) && Deposited(b) < U64_SIZE
    requires forall i :: 0 <= i < |txs| && Enters(b, txs, i) ==>
               CountRun(k, b, txs[..i]).deposited + txs[i].call.amount < U64_SIZE
    ensures Deposited(Run(b, txs)) < U64_SIZE
    decreases |txs|
  {
    if txs != [] {
      var b', k', rest := Step(b, txs[0]), Count(k, b, txs[0]), txs[1..];
      assert txs[..0] == [] && Enters(b, txs, 0) == (txs[0].call.MakeDeposit? && Judge(b, txs[0]) == Done);
      StepDeposited(b, txs[0]);
      AddU64Mod(Deposited(b), 0);
      CountKeeps(b, k, txs[0]);
      forall i | 0 <= i < |rest| && Enters(b', rest, i)
        ensures CountRun(k', b', rest[..i]).deposited + rest[i].call.amount < U64_SIZE
      {
        TailOfRun(b, k, txs, i);
      }
      BoundedKept(b', k', rest);
    }
  }

  /** If every successful deposit of a run finds `total_deposited + amount < 2^64`, the lifetime total stays below. */
  lemma RunBounded(owner: Address, maxHistory: U32, txs: seq<Tx>)
    requires var b := Init(owner, maxHistory);
             forall i :: 0 <= i < |txs| && Enters(b, txs, i) ==>
               CountRun(ZERO, b, txs[..i]).deposited + txs[i].call.amount < U64_SIZE
    ensures Deposited(Run(Init(owner, maxHistory), txs)) < U64_SIZE
  {
    BoundedKept(Init(owner, maxHistory), ZERO, txs);
  }

  // ---- conservation ----

  /** Numbers only: wrapped totals add up iff the right side fits and what is missing is a multiple of 2^64. */
  lemma WrappedSum(stillActive: nat, paid: nat, active: nat)
    requires active <= stillActive
    ensures (stillActive + paid) % U64_SIZE == active + paid % U64_SIZE <==>
            active + paid % U64_SIZE < U64_SIZE && (stillActive - active) % U64_SIZE == 0
  {
  }

  /**
   The three stored totals add up if and only if their sum fits 64 bits and the active counter is off by a multiple
   of 2^64. Where the active counter is exact they add up iff active + withdrawn < 2^64, the balance mapping sums to it,
   and every balance is what its owner can still withdraw plus what was evicted.
   */
  ghost predicate Conserved(b: Book, k: Counters) {
    && (k.deposited == k.active + k.withdrawn <==>
          k.active + k.withdrawn < U64_SIZE && (StillActive(b) - k.active) % U64_SIZE == 0)
    && (Exact(b, k) ==>
          && (k.deposited == k.active + k.withdrawn <==> StillActive(b) + TotalPaid(b) % U64_SIZE < U64_SIZE)
          && SumValues(k.balances) == k.active == StillActive(b)
          && forall who :: Lookup(k.balances, who) == Withdrawable(b, who) + Stranded(b, who))
    && (Deposited(b) < U64_SIZE ==>
          Exact(b, k) && k.withdrawn == TotalPaid(b) && k.deposited == Deposited(b) == k.active + k.withdrawn)
  }

  lemma ConsistentConserves(b: Book, k: Counters)
    requires Consistent(b, k)
    ensures Conserved(b, k)
  {
    Bounds(b);
    WrappedSum(StillActive(b), TotalPaid(b), k.active);
    if Exact(b, k) {
      BalancesAddUp(b, k.balances);
      forall who ensures Lookup(k.balances, who) == Withdrawable(b, who) + Stranded(b, who) {
        assert Lookup(k.balances, who) == ActiveOf(b, who);
        BalanceSplit(b, who);
      }
    }
  }

  /** Conservation after every run from deployment. */
  lemma Conservation(owner: Address, maxHistory: U32, txs: seq<Tx>)
    ensures Conserved(Run(Init(owner, maxHistory), txs), CountRun(ZERO, Init(owner, maxHistory), txs))
  {
    RunConsistent(owner, maxHistory, txs);
    ConsistentConserves(Run(Init(owner, maxHistory), txs), CountRun(ZERO, Init(owner, maxHistory), txs));
  }

  /** Nothing a call adds to or takes from a counter passes 64 bits or falls short. */
  ghost predicate Roomy(b: Book, k: Counters, who: Address, amount: U64) {
    && (k.deposited + amount < U64_SIZE <==> Deposited(b) + amount < U64_SIZE)
    && (k.deposited + amount < U64_SIZE && amount > 0 ==>
          k.count + 1 < U64_SIZE && k.active + amount < U64_SIZE && Lookup(k.balances, who) + amount < U64_SIZE)
    && forall i :: 0 <= i < |b.history| && b.history[i].status == Active ==>
         && b.history[i].amount <= Lookup(k.balances, b.history[i].stakeholder)
         && b.history[i].amount <= k.active
         && k.withdrawn + b.history[i].amount < U64_SIZE
  }

  lemma HeldInBalance(b: Book, k: Counters, i: nat)
    requires Exact(b, k) && BalancesExact(b, k.balances) && i < |b.history| && b.history[i].status == Active
    ensures b.history[i].amount <= Lookup(k.balances, b.history[i].stakeholder) && b.history[i].amount <= k.active
  {
    var d := b.history[i];
    assert Lookup(k.balances, d.stakeholder) == ActiveOf(b, d.stakeholder);
    SumByUpdate(b.history, i, d, OwnedActive(d.stakeholder));
    SumByUpdate(b.history, i, d, ActiveAmount);
    OwnedActiveAt(d.stakeholder, d);
  }

  lemma ConsistentIsRoomy(b: Book, k: Counters, who: Address, amount: U64)
    requires Consistent(b, k) && Deposited(b) < U64_SIZE
    ensures Roomy(b, k, who, amount)
  {
    Bounds(b);
    ActiveOfBounded(b, who);
    assert Lookup(k.balances, who) == ActiveOf(b, who);
    forall i | 0 <= i < |b.history| && b.history[i].status == Active
      ensures b.history[i].amount <= Lookup(k.balances, b.history[i].stakeholder) && b.history[i].amount <= k.active
    {
      HeldInBalance(b, k, i);
    }
  }

  /**
   After every run from deployment whose lifetime total fits 64 bits: the single check `total_deposited + amount < 2^64`
   keeps it there, and then no other u64 addition of `deposit` or `withdraw` overflows and neither subtraction
   saturates.
   */
  lemma OneBoundSuffices(owner: Address, maxHistory: U32, txs: seq<Tx>, who: Address, amount: U64)
    requires Deposited(Run(Init(owner, maxHistory), txs)) < U64_SIZE
    ensures Roomy(Run(Init(owner, maxHistory), txs), CountRun(ZERO, Init(owner, maxHistory), txs), who, amount)
  {
    RunConsistent(owner, maxHistory, txs);
    ConsistentIsRoomy(Run(Init(owner, maxHistory), txs), CountRun(ZERO, Init(owner, maxHistory), txs), who, amount);
  }

  lemma BalancesAddUp(b: Book, balances: map<Address, U64>)
    requires BalancesExact(b, balances) && forall i :: 0 <= i < |b.history| ==> b.history[i].stakeholder in balances
    ensures SumValues(balances) == StillActive(b)
  {
    var key: Deposit -> Address := Owner;
    forall who | who in balances ensures balances[who] == SumBy(b.history, Fibre(ActiveAmount, key, who)) {
      assert Lookup(balances, who) == ActiveOf(b, who);
    }
    SumOfFibres(b.history, ActiveAmount, key, balances);
  }

  /** Deposit 2^64 - 1, deposit 2, withdraw the 2. */
  function WrappingRun(who: Address): seq<Tx> {
    [Tx(who, 0, MakeDeposit(U64_SIZE - 1, "", "", "", 0)),
     Tx(who, 0, MakeDeposit(2, "", "", "", 0)),
     Tx(who, 0, Withdraw(2))]
  }

  function WrappingDeposit(id: U64, who: Address): Deposit {
    Deposit(id, who, if id == 1 then U64_SIZE - 1 else 2, "", "", "", 0, Active, 0, 0, 0)
  }

  /** The two deposits of `WrappingRun`. */
  function WrappedBook(owner: Address, who: Address): Book {
    Append(Append(Init(owner, 2), WrappingDeposit(1, who)), WrappingDeposit(2, who))
  }

  lemma WrappingSteps(owner: Address, who: Address)
    ensures var txs, b0, b2 := WrappingRun(who), Init(owner, 2), WrappedBook(owner, who);
            var b1 := Append(b0, WrappingDeposit(1, who));
            var k1 := Credit(ZERO, who, U64_SIZE - 1);
            && Step(b0, txs[0]) == b1 && Step(b1, txs[1]) == b2 && Step(b2, txs[2]) == PayOut(b2, 1, 2, who, 0)
            && Count(ZERO, b0, txs[0]) == k1 && Count(k1, b1, txs[1]) == Credit(k1, who, 2)
            && forall k :: Count(k, b2, txs[2]) == Debit(k, who, 2)
  {
    var b2 := WrappedBook(owner, who);
    assert Find(b2.history, 0, 2) == Some(1) by {
      assert b2.history[0].id == 1 && b2.history[1].id == 2;
    }
  }

  lemma ThreeSteps(b: Book, k: Counters, x: Tx, y: Tx, z: Tx)
    ensures var b1 := Step(b, x);
            var b2 := Step(b1, y);
            && Run(b, [x, y, z]) == Step(b2, z)
            && CountRun(k, b, [x, y, z]) == Count(Count(Count(k, b, x), b1, y), b2, z)
  {
    var b1 := Step(b, x);
    var b2 := Step(b1, y);
    assert [x, y, z][1..] == [y, z] && [y, z][1..] == [z] && [z][1..] == [];
    assert Run(b2, [z]) == Step(b2, z) && Run(b1, [y, z]) == Run(b2, [z]);
    var k1 := Count(k, b, x);
    var k2 := Count(k1, b1, y);
    assert CountRun(k2, b2, [z]) == Count(k2, b2, z) && CountRun(k1, b1, [y, z]) == CountRun(k2, b2, [z]);
  }

  lemma WrappedAmounts(owner: Address, who: Address)
    ensures var b3 := PayOut(WrappedBook(owner, who), 1, 2, who, 0);
            StillActive(b3) == ActiveOf(b3, who) == U64_SIZE - 1
  {
    var b0, d1, d2 := Init(owner, 2), WrappingDeposit(1, who), WrappingDeposit(2, who);
    AppendMeasures(b0, d1);
    AppendMeasures(Append(b0, d1), d2);
    PayOutMeasures(WrappedBook(owner, who), 1, 2, who, 0);
  }

  /**
   Past the bound conservation does fail: after this run the contract says 1 deposited, 0 active, 2 withdrawn,
   and a zero balance, while 2^64 - 1 is still active.
   */
  lemma WrappingRunBreaksConservation(owner: Address, who: Address)
    ensures var b, k := Run(Init(owner, 2), WrappingRun(who)), CountRun(ZERO, Init(owner, 2), WrappingRun(who));
            && StillActive(b) == ActiveOf(b, who) == U64_SIZE - 1
            && k.deposited == 1 && k.active == 0 && k.withdrawn == 2 && Lookup(k.balances, who) == 0
  {
    var txs, b0 := WrappingRun(who), Init(owner, 2);
    ThreeSteps(b0, ZERO, txs[0], txs[1], txs[2]);
    assert txs == [txs[0], txs[1], txs[2]];
    WrappingSteps(owner, who);
    WrappedAmounts(owner, who);
  }
}
