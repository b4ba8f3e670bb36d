/**
 The stakeholder deposit contract as a book: every deposit ever made, with its present status,
 and every payout. No ring, no counters, no machine words except the ones the contract stores in records.
 `StakeholderDeposit` refines it; the theorems about whole runs are proved here.
 */
module StakeholderLedger {
  import opened Prelude

  datatype DepositStatus = Active | Withdrawn

  datatype Deposit = Deposit(
    id: U64, stakeholder: Address, amount: U64,
    sourceLabel: string, sourceKind: string, strategyHint: string,
    ts: U64, status: DepositStatus, withdrawalTs: U64, withdrawalAmount: U64, nonce: U64)

  /** A transfer out of the contract's purse, for the deposit at position `index` of the history. */
  datatype Payout = Payout(index: nat, id: U64, to: Address, amount: U64)

  datatype Reason =
    | ContractPaused | OnlyOwner | ZeroAmount | TextTooLong
    | NoDeposits | DepositNotFound | NotYourDeposit | AlreadyWithdrawn

  datatype Verdict = Done | Reverted(reason: Reason)

  datatype Call =
    | TransferOwnership(newOwner: Address)
    | SetPaused(paused: bool)
    | MakeDeposit(amount: U64, sourceLabel: string, sourceKind: string, strategyHint: string, nonce: U64)
    | Withdraw(id: U64)

  datatype Tx = Tx(caller: Address, now: U64, call: Call)

  datatype Book = Book(owner: Address, paused: bool, cap: U32, history: seq<Deposit>, payouts: seq<Payout>)

  function Init(owner: Address, maxHistory: U32): Book {
    Book(owner, false, Max(maxHistory, 1), [], [])
  }

  /** First history position the ring still holds. */
  function Oldest(b: Book): nat {
    if |b.history| <= b.cap then 0 else |b.history| - b.cap
  }

  /** The deposit record carrying `id` at or after position `from`. */
  function Find(h: seq<Deposit>, from: nat, id: U64): (found: Option<nat>)
    requires from <= |h|
    ensures found.Some? ==> from <= found.value < |h| && h[found.value].id == id
    ensures found.None? ==> forall i :: from <= i < |h| ==> h[i].id != id
    decreases |h| - from
  {
    if from == |h| then None else if h[from].id == id then Some(from) else Find(h, from + 1, id)
  }

  function Judge(b: Book, tx: Tx): Verdict {
    match tx.call
    case TransferOwnership(_) => if tx.caller == b.owner then Done else Reverted(OnlyOwner)
    case SetPaused(_) => if tx.caller == b.owner then Done else Reverted(OnlyOwner)
    case MakeDeposit(amount, source, kind, hint, _) =>
      if b.paused then Reverted(ContractPaused)
      else if amount == 0 then Reverted(ZeroAmount)
      else if |source| > 64 || |kind| > 32 || |hint| > 32 then Reverted(TextTooLong)
      else Done
    case Withdraw(id) =>
      if b.paused then Reverted(ContractPaused)
      else if b.history == [] then Reverted(NoDeposits)
      else match Find(b.history, Oldest(b), id)
        case None => Reverted(DepositNotFound)
        case Some(i) =>
          if b.history[i].stakeholder != tx.caller then Reverted(NotYourDeposit)
          else if b.history[i].status != Active then Reverted(AlreadyWithdrawn)
          else Done
  }

  function Settled(d: Deposit, now: U64): Deposit {
    d.(status := Withdrawn, withdrawalTs := now, withdrawalAmount := d.amount)
  }

  function Append(b: Book, d: Deposit): Book {
    b.(history := b.history + [d])
  }

  function PayOut(b: Book, i: nat, id: U64, to: Address, now: U64): Book
    requires i < |b.history|
  {
    b.(history := b.history[i := Settled(b.history[i], now)],
       payouts := b.payouts + [Payout(i, id, to, b.history[i].amount)])
  }

  /** A reverted call leaves everything as it was. */
  function Step(b: Book, tx: Tx): Book {
    if Judge(b, tx) != Done then b else
      match tx.call
      case TransferOwnership(_) => b
      case SetPaused(p) => b.(paused := p)
      case MakeDeposit(amount, source, kind, hint, nonce) =>
        var id := (|b.history| + 1) % U64_SIZE;
        Append(b, Deposit(id, tx.caller, amount, source, kind, hint, tx.now, Active, 0, 0, nonce))
      case Withdraw(id) =>
        PayOut(b, Find(b.history, Oldest(b), id).value, id, tx.caller, tx.now)
  }

  function Run(b: Book, txs: seq<Tx>): Book
    decreases |txs|
  {
    if txs == [] then b else Run(Step(b, txs[0]), txs[1..])
  }

  // ---- measures ----

  function Amount(d: Deposit): nat { d.amount }
  function ActiveAmount(d: Deposit): nat { if d.status == Active then d.amount else 0 }
  function WithdrawnAmount(d: Deposit): nat { if d.status == Withdrawn then d.amount else 0 }
  function Owner(d: Deposit): Address { d.stakeholder }
  function OwnedActive(who: Address): Deposit -> nat { Fibre(ActiveAmount, Owner, who) }

  lemma OwnedActiveAt(who: Address, d: Deposit)
    ensures OwnedActive(who)(d) == if d.stakeholder == who && d.status == Active then d.amount else 0
  {
    var f: Deposit -> nat, key: Deposit -> Address := ActiveAmount, Owner;
    assert f(d) == ActiveAmount(d);
    assert key(d) == d.stakeholder;
    assert Fibre(f, key, who)(d) == if key(d) == who then f(d) else 0;
  }

  function Paid(p: Payout): nat { p.amount }
  function PaidTo(who: Address): Payout -> nat { (p: Payout) => if p.to == who then p.amount else 0 }

  ghost function Deposited(b: Book): nat { SumBy(b.history, Amount) }
  ghost function StillActive(b: Book): nat { SumBy(b.history, ActiveAmount) }
  ghost function TotalPaid(b: Book): nat { SumBy(b.payouts, Paid) }
  ghost function ActiveOf(b: Book, who: Address): nat { SumBy(b.history, OwnedActive(who)) }

  /** What `who` has active in records the ring still holds, and what they have active in evicted ones. */
  ghost function Withdrawable(b: Book, who: Address): nat { SumBy(b.history[Oldest(b)..], OwnedActive(who)) }
  ghost function Stranded(b: Book, who: Address): nat { SumBy(b.history[..Oldest(b)], OwnedActive(who)) }

  // ---- what each call does, and when it is refused ----

  /**
   A deposit is entered iff the contract is not paused, the amount is positive and the texts fit; then the history gains
   exactly that record. The first guard that fails gives the reason, and a refused deposit changes nothing.
   */
  lemma DepositIff(b: Book, tx: Tx)
    requires tx.call.MakeDeposit?
    ensures var c, b', v := tx.call, Step(b, tx), Judge(b, tx);
            var fits := |c.sourceLabel| <= 64 && |c.sourceKind| <= 32 && |c.strategyHint| <= 32;
            && (|b'.history| == |b.history| + 1 <==> !b.paused && c.amount > 0 && fits)
            && (b' == b <==> b.paused || c.amount == 0 || !fits)
            && (!b.paused && c.amount > 0 && fits ==>
                  b' == b.(history := b.history +
                    [Deposit((|b.history| + 1) % U64_SIZE, tx.caller, c.amount,
                             c.sourceLabel, c.sourceKind, c.strategyHint, tx.now, Active, 0, 0, c.nonce)]))
            && (v == Reverted(ContractPaused) <==> b.paused)
            && (v == Reverted(ZeroAmount) <==> !b.paused && c.amount == 0)
            && (v == Reverted(TextTooLong) <==> !b.paused && c.amount > 0 && !fits)
  {
    if Step(b, tx) != b {
      assert |Step(b, tx).history| != |b.history|;
    }
  }

  /** The pause flag moves iff the owner moves it; nobody moves the owner, not even the owner. */
  lemma OwnerCalls(b: Book, tx: Tx)
    ensures tx.call.SetPaused? ==>
              && Step(b, tx) == b.(paused := if tx.caller == b.owner then tx.call.paused else b.paused)
              && Judge(b, tx) == if tx.caller == b.owner then Done else Reverted(OnlyOwner)
    ensures tx.call.TransferOwnership? ==>
              && Step(b, tx) == b
              && Judge(b, tx) == if tx.caller == b.owner then Done else Reverted(OnlyOwner)
    ensures !tx.call.SetPaused? ==> Step(b, tx).paused == b.paused
  {
  }

  // ---- the invariant of every run ----

  ghost predicate IsPayoutFor(b: Book, p: Payout) {
    && p.index < |b.history|
    && var d := b.history[p.index];
    && d.status == Withdrawn && d.withdrawalAmount == d.amount == p.amount && d.id == p.id && d.stakeholder == p.to
  }

  ghost predicate NumberedInOrder(h: seq<Deposit>) {
    forall i :: 0 <= i < |h| ==> h[i].id == (i + 1) % U64_SIZE && h[i].amount > 0
  }

  ghost predicate PaidOnce(payouts: seq<Payout>) {
    forall m, n :: 0 <= m < n < |payouts| ==> payouts[m].index != payouts[n].index
  }

  ghost predicate Sound(b: Book) {
    && 1 <= b.cap
    && NumberedInOrder(b.history)
    && (forall m :: 0 <= m < |b.payouts| ==> IsPayoutFor(b, b.payouts[m]))
    && PaidOnce(b.payouts)
    && TotalPaid(b) == SumBy(b.history, WithdrawnAmount)
  }

  lemma PayOutSound(b: Book, i: nat, id: U64, to: Address, now: U64)
    requires Sound(b) && i < |b.history|
    requires b.history[i].status == Active && b.history[i].id == id && b.history[i].stakeholder == to
    ensures Sound(PayOut(b, i, id, to, now))
  {
    var b' := PayOut(b, i, id, to, now);
    SumByUpdate(b.history, i, b'.history[i], WithdrawnAmount);
    SumByAppend(b.payouts, b'.payouts[|b.payouts|], Paid);
    forall m | 0 <= m < |b.payouts| ensures b.payouts[m].index != i && IsPayoutFor(b', b'.payouts[m]) {
      assert IsPayoutFor(b, b.payouts[m]);
    }
    assert NumberedInOrder(b'.history) by {
      forall k | 0 <= k < |b'.history|
        ensures b'.history[k].id == b.history[k].id && b'.history[k].amount == b.history[k].amount
      {
      }
    }
  }

  lemma AppendSound(b: Book, d: Deposit)
    requires Sound(b)
    requires d.id == (|b.history| + 1) % U64_SIZE && d.amount > 0 && d.status == Active
    ensures Sound(Append(b, d))
  {
    var b' := Append(b, d);
    SumByAppend(b.history, d, WithdrawnAmount);
    forall m | 0 <= m < |b'.payouts| ensures IsPayoutFor(b', b'.payouts[m]) {
      assert IsPayoutFor(b, b.payouts[m]);
    }
  }

  /** How a successful call changes the book: not at all up to the pause flag, one record more, or one payout. */
  lemma StepCases(b: Book, tx: Tx)
    ensures var b' := Step(b, tx);
            || b' == b.(paused := b'.paused)
            || (tx.call.MakeDeposit? && Judge(b, tx) == Done && |b'.history| == |b.history| + 1 &&
                var d := b'.history[|b.history|];
                b' == Append(b, d) && d.id == (|b.history| + 1) % U64_SIZE && d.status == Active &&
                d.stakeholder == tx.caller && d.amount == tx.call.amount > 0)
            || (tx.call.Withdraw? && Judge(b, tx) == Done &&
                var i := Find(b.history, Oldest(b), tx.call.id).value;
                b' == PayOut(b, i, tx.call.id, tx.caller, tx.now) &&
                b.history[i].status == Active && b.history[i].stakeholder == tx.caller)
  {
  }

  lemma StepSound(b: Book, tx: Tx)
    requires Sound(b)
    ensures Sound(Step(b, tx))
  {
    StepCases(b, tx);
    if tx.call.MakeDeposit? && Judge(b, tx) == Done {
      AppendSound(b, Step(b, tx).history[|b.history|]);
    } else if tx.call.Withdraw? && Judge(b, tx) == Done {
      PayOutSound(b, Find(b.history, Oldest(b), tx.call.id).value, tx.call.id, tx.caller, tx.now);
    }
  }

  lemma {:induction false} SoundKept(b: Book, txs: seq<Tx>)
    requires Sound(b)
    ensures Sound(Run(b, txs))
    decreases |txs|
  {
    if txs != [] {
      StepSound(b, txs[0]);
      SoundKept(Step(b, txs[0]), txs[1..]);
    }
  }

  lemma RunSound(owner: Address, maxHistory: U32, txs: seq<Tx>)
    ensures Sound(Run(Init(owner, maxHistory), txs))
  {
    SoundKept(Init(owner, maxHistory), txs);
  }

  // ---- exactly-once payout and conservation ----

  ghost predicate IdsPaidOnce(payouts: seq<Payout>) {
    forall m, n :: 0 <= m < n < |payouts| ==> payouts[m].id != payouts[n].id
  }

  lemma PayoutIdsDistinct(b: Book)
    requires Sound(b)
    ensures |b.history| < U64_SIZE ==> IdsPaidOnce(b.payouts)
  {
    if |b.history| < U64_SIZE {
      forall m | 0 <= m < |b.payouts| ensures b.payouts[m].id == b.payouts[m].index + 1 {
        assert IsPayoutFor(b, b.payouts[m]);
        AddU64Mod(b.payouts[m].index + 1, 0);
      }
    }
  }

  /**
   Over any run from deployment no deposit is paid twice, each payout goes to its own depositor
   for exactly its amount, and what was deposited is what is still active plus what was paid out.
   */
  lemma PaidAtMostOnce(owner: Address, maxHistory: U32, txs: seq<Tx>)
    ensures var b := Run(Init(owner, maxHistory), txs);
            && (forall m :: 0 <= m < |b.payouts| ==> IsPayoutFor(b, b.payouts[m]))
            && PaidOnce(b.payouts)
            && (|b.history| < U64_SIZE ==> IdsPaidOnce(b.payouts))
            && Deposited(b) == StillActive(b) + TotalPaid(b)
  {
    RunSound(owner, maxHistory, txs);
    var b := Run(Init(owner, maxHistory), txs);
    SumByAdd(b.history, ActiveAmount, WithdrawnAmount, Amount);
    PayoutIdsDistinct(b);
  }

  ghost predicate PaysOnlyFrom(lo: nat, before: seq<Payout>, after: seq<Payout>) {
    && before <= after
    && forall m :: |before| <= m < |after| ==> after[m].index >= lo
  }

  lemma StepPaysFromWindow(b: Book, tx: Tx)
    ensures var b' := Step(b, tx);
            && b'.cap == b.cap && b'.owner == b.owner
            && |b.history| <= |b'.history| && Oldest(b) <= Oldest(b')
            && b'.history[..Oldest(b)] == b.history[..Oldest(b)]
            && PaysOnlyFrom(Oldest(b), b.payouts, b'.payouts)
  {
    StepCases(b, tx);
  }

  /** A record below the ring's window is never touched or paid again: its owner cannot get it out by any later run. */
  lemma {:induction false} EvictedIsFrozen(b: Book, txs: seq<Tx>)
    ensures var b' := Run(b, txs);
            && b'.cap == b.cap && b'.owner == b.owner
            && |b.history| <= |b'.history| && Oldest(b) <= Oldest(b')
            && b'.history[..Oldest(b)] == b.history[..Oldest(b)]
            && PaysOnlyFrom(Oldest(b), b.payouts, b'.payouts)
    decreases |txs|
  {
    if txs != [] {
      var b1 := Step(b, txs[0]);
      StepPaysFromWindow(b, txs[0]);
      EvictedIsFrozen(b1, txs[1..]);
      var b' := Run(b, txs);
      assert b'.history[..Oldest(b)] == b'.history[..Oldest(b1)][..Oldest(b)];
    }
  }

  /** What a record says apart from its settlement. */
  function Unsettled(d: Deposit): Deposit {
    d.(status := Active, withdrawalTs := 0, withdrawalAmount := 0)
  }

  /** No run changes what a record says, only whether it is settled; and a settled record is final. */
  lemma {:induction false} RecordsAreKept(b: Book, txs: seq<Tx>, k: nat)
    requires k < |b.history|
    ensures var b' := Run(b, txs);
            && k < |b'.history|
            && Unsettled(b'.history[k]) == Unsettled(b.history[k])
            && (b.history[k].status == Withdrawn ==> b'.history[k] == b.history[k])
    decreases |txs|
  {
    if txs != [] {
      StepCases(b, txs[0]);
      RecordsAreKept(Step(b, txs[0]), txs[1..], k);
    }
  }

  /** The deposit that a successful call enters, before any settlement. */
  function Entered(tx: Tx, k: nat): Deposit
    requires tx.call.MakeDeposit?
  {
    var c := tx.call;
    Deposit(
      (k + 1) % U64_SIZE, tx.caller, c.amount, c.sourceLabel, c.sourceKind, c.strategyHint, tx.now,
      Active, 0, 0, c.nonce)
  }

  /** Every record of a run was entered by the successful call that made it the next one, and says what it said. */
  lemma {:induction false} DepositsWereMade(b: Book, txs: seq<Tx>, k: nat)
    requires |b.history| <= k < |Run(b, txs).history|
    ensures exists i :: 0 <= i < |txs| && txs[i].call.MakeDeposit? &&
                        Judge(Run(b, txs[..i]), txs[i]) == Done && |Run(b, txs[..i]).history| == k &&
                        Unsettled(Run(b, txs).history[k]) == Entered(txs[i], k)
    decreases |txs|
  {
    var b', rest := Step(b, txs[0]), txs[1..];
    if k < |b'.history| {
      RecordsAreKept(b', rest, k);
      assert txs[..0] == [];
    } else {
      DepositsWereMade(b', rest, k);
      var i :| 0 <= i < |rest| && rest[i].call.MakeDeposit? &&
               Judge(Run(b', rest[..i]), rest[i]) == Done && |Run(b', rest[..i]).history| == k &&
               Unsettled(Run(b', rest).history[k]) == Entered(rest[i], k);
      assert txs[..i + 1][0] == txs[0] && txs[..i + 1][1..] == rest[..i];
      assert txs[i + 1] == rest[i];
    }
  }

  // ---- lookup by id ----

  /** Within the window ids are distinct, even if the 64-bit id counter has wrapped. */
  lemma WindowIdsDistinct(b: Book, i: nat, j: nat)
    requires Sound(b) && Oldest(b) <= i < |b.history| && Oldest(b) <= j < |b.history|
    requires b.history[i].id == b.history[j].id
    ensures i == j
  {
    ModDistinct(i + 1, j + 1, U64_SIZE);
  }

  /** Id k is found iff n - cap < k <= n, and then it is the k-th deposit. */
  lemma FoundIff(b: Book, id: U64)
    requires Sound(b) && |b.history| < U64_SIZE
    ensures Find(b.history, Oldest(b), id) ==
            if 1 <= id && |b.history| - b.cap < id <= |b.history| then Some(id - 1) else None
  {
    forall i | 0 <= i < |b.history| ensures b.history[i].id == i + 1 {
      ModUnique(i + 1, U64_SIZE, 0, i + 1);
    }
    var found := Find(b.history, Oldest(b), id);
    if 1 <= id && |b.history| - b.cap < id <= |b.history| {
      assert b.history[id - 1].id == id;
    }
  }

  /** A withdrawal succeeds iff the contract is not paused and the id names a held, active deposit of the caller. */
  lemma WithdrawSucceedsIff(b: Book, who: Address, now: U64, id: U64)
    requires Sound(b) && |b.history| < U64_SIZE
    ensures Judge(b, Tx(who, now, Withdraw(id))) == Done <==>
            && !b.paused && 1 <= id && |b.history| - b.cap < id <= |b.history|
            && b.history[id - 1].stakeholder == who && b.history[id - 1].status == Active
  {
    FoundIff(b, id);
  }

  /** What a successful withdrawal does, and why any other is refused. */
  lemma WithdrawEffect(b: Book, who: Address, now: U64, id: U64)
    requires Sound(b) && |b.history| < U64_SIZE
    ensures var v, b' := Judge(b, Tx(who, now, Withdraw(id))), Step(b, Tx(who, now, Withdraw(id)));
            var held := 1 <= id && |b.history| - b.cap < id <= |b.history|;
            && (v == Done ==>
                  var d := b.history[id - 1];
                  && b'.history == b.history[id - 1 :=
                       d.(status := Withdrawn, withdrawalTs := now, withdrawalAmount := d.amount)]
                  && b'.payouts == b.payouts + [Payout(id - 1, id, who, d.amount)]
                  && b' == b.(history := b'.history, payouts := b'.payouts))
            && (v != Done ==> b' == b)
            && (v == Reverted(ContractPaused) <==> b.paused)
            && (v == Reverted(NoDeposits) <==> !b.paused && b.history == [])
            && (v == Reverted(DepositNotFound) <==> !b.paused && b.history != [] && !held)
            && (v == Reverted(NotYourDeposit) <==> !b.paused && held && b.history[id - 1].stakeholder != who)
            && (v == Reverted(AlreadyWithdrawn) <==>
                  !b.paused && held && b.history[id - 1].stakeholder == who && b.history[id - 1].status != Active)
  {
    FoundIff(b, id);
  }

  /** Also after the ids have wrapped: asking for an active record's id settles it iff it is held and the caller's. */
  lemma SettlesIff(b: Book, who: Address, now: U64, i: nat)
    requires Sound(b) && i < |b.history| && b.history[i].status == Active
    ensures Step(b, Tx(who, now, Withdraw(b.history[i].id))).history[i].status == Withdrawn <==>
            !b.paused && Oldest(b) <= i && b.history[i].stakeholder == who
  {
    var found := Find(b.history, Oldest(b), b.history[i].id);
    if Oldest(b) <= i {
      WindowIdsDistinct(b, i, found.value);
    }
  }

  // ---- what a stakeholder can still get out ----

  /** A stakeholder's balance is what the ring still lets them withdraw plus what was evicted while active. */
  lemma BalanceSplit(b: Book, who: Address)
    ensures ActiveOf(b, who) == Withdrawable(b, who) + Stranded(b, who)
  {
    assert b.history == b.history[..Oldest(b)] + b.history[Oldest(b)..];
    SumBySplit(b.history[..Oldest(b)], b.history[Oldest(b)..], OwnedActive(who));
  }

  predicate DepositFree(txs: seq<Tx>) {
    forall i :: 0 <= i < |txs| ==> !txs[i].call.MakeDeposit?
  }

  lemma PayOutMoves(b: Book, i: nat, id: U64, to: Address, now: U64, who: Address)
    requires Oldest(b) <= i < |b.history| && b.history[i].status == Active && b.history[i].stakeholder == to
    ensures var b' := PayOut(b, i, id, to, now);
            && |b'.history| == |b.history| && b'.cap == b.cap
            && SumBy(b'.payouts, PaidTo(who)) + Withdrawable(b', who)
               == SumBy(b.payouts, PaidTo(who)) + Withdrawable(b, who)
  {
    var b', lo := PayOut(b, i, id, to, now), Oldest(b);
    SumByUpdate(b.history[lo..], i - lo, b'.history[i], OwnedActive(who));
    assert b'.history[lo..] == b.history[lo..][i - lo := b'.history[i]];
    OwnedActiveAt(who, b.history[i]);
    OwnedActiveAt(who, b'.history[i]);
    SumByAppend(b.payouts, b'.payouts[|b.payouts|], PaidTo(who));
  }

  lemma PayStep(b: Book, tx: Tx, who: Address)
    requires !tx.call.MakeDeposit?
    ensures var b' := Step(b, tx);
            && |b'.history| == |b.history| && b'.cap == b.cap
            && SumBy(b'.payouts, PaidTo(who)) + Withdrawable(b', who)
               == SumBy(b.payouts, PaidTo(who)) + Withdrawable(b, who)
  {
    StepCases(b, tx);
    if tx.call.Withdraw? && Judge(b, tx) == Done {
      PayOutMoves(b, Find(b.history, Oldest(b), tx.call.id).value, tx.call.id, tx.caller, tx.now, who);
    }
  }

  /** Without new deposits, every coin paid to `who` comes out of their withdrawable part, coin for coin. */
  lemma {:induction false} PaidFromWithdrawable(b: Book, txs: seq<Tx>, who: Address)
    requires DepositFree(txs)
    ensures var b' := Run(b, txs);
            && |b'.history| == |b.history| && b'.cap == b.cap
            && SumBy(b'.payouts, PaidTo(who)) + Withdrawable(b', who)
               == SumBy(b.payouts, PaidTo(who)) + Withdrawable(b, who)
    decreases |txs|
  {
    if txs != [] {
      PayStep(b, txs[0], who);
      PaidFromWithdrawable(Step(b, txs[0]), txs[1..], who);
    }
  }

  /** `who` asks for the ids of positions from, from + 1, .., n - 1 in turn. */
  function WithdrawAll(who: Address, now: U64, from: nat, n: nat): (txs: seq<Tx>)
    requires from <= n
    ensures DepositFree(txs)
    decreases n - from
  {
    if from == n then [] else [Tx(who, now, Withdraw((from + 1) % U64_SIZE))] + WithdrawAll(who, now, from + 1, n)
  }

  /** Of the held records before position i, `who` has nothing left to withdraw. */
  ghost predicate Drained(b: Book, who: Address, i: nat) {
    && Sound(b) && !b.paused && Oldest(b) <= i <= |b.history|
    && SumBy(b.history[Oldest(b)..i], OwnedActive(who)) == 0
  }

  lemma AskedAndSettled(b: Book, who: Address, now: U64, i: nat, id: U64)
    requires !b.paused && Find(b.history, Oldest(b), id) == Some(i)
    ensures var b' := Step(b, Tx(who, now, Withdraw(id)));
            && b'.cap == b.cap && !b'.paused && |b'.history| == |b.history|
            && b'.history[..i] == b.history[..i]
            && OwnedActive(who)(b'.history[i]) == 0
  {
    var tx := Tx(who, now, Withdraw(id));
    StepCases(b, tx);
    OwnedActiveAt(who, Step(b, tx).history[i]);
  }

  lemma DrainedGrows(h: seq<Deposit>, h': seq<Deposit>, lo: nat, i: nat, f: Deposit -> nat)
    requires lo <= i < |h| == |h'| && h'[..i] == h[..i]
    requires SumBy(h[lo..i], f) == 0 && f(h'[i]) == 0
    ensures SumBy(h'[lo..i + 1], f) == 0
  {
    assert h'[lo..i + 1] == h'[..i][lo..] + [h'[i]];
    assert h[lo..i] == h[..i][lo..];
    SumByAppend(h[lo..i], h'[i], f);
  }

  lemma DrainStep(b: Book, who: Address, now: U64, i: nat)
    requires Drained(b, who, i) && i < |b.history|
    ensures var b' := Step(b, Tx(who, now, Withdraw((i + 1) % U64_SIZE)));
            |b'.history| == |b.history| && Drained(b', who, i + 1)
  {
    var id := b.history[i].id;
    var b', lo := Step(b, Tx(who, now, Withdraw(id))), Oldest(b);
    StepSound(b, Tx(who, now, Withdraw(id)));
    WindowIdsDistinct(b, i, Find(b.history, lo, id).value);
    AskedAndSettled(b, who, now, i, id);
    DrainedGrows(b.history, b'.history, lo, i, OwnedActive(who));
  }

  lemma {:induction false} DrainRest(b: Book, who: Address, now: U64, i: nat)
    requires Drained(b, who, i)
    ensures Withdrawable(Run(b, WithdrawAll(who, now, i, |b.history|)), who) == 0
    decreases |b.history| - i
  {
    if i == |b.history| {
      assert b.history[Oldest(b)..i] == b.history[Oldest(b)..];
    } else {
      var txs := WithdrawAll(who, now, i, |b.history|);
      DrainStep(b, who, now, i);
      DrainRest(Step(b, txs[0]), who, now, i + 1);
      assert txs[1..] == WithdrawAll(who, now, i + 1, |b.history|);
    }
  }

  /**
   The withdrawable part is exactly what deposit-free play can pay: no run exceeds it,
   and while the contract is not paused asking for every held id reaches it.
   */
  lemma WithdrawableIsExact(b: Book, who: Address, now: U64)
    requires Sound(b)
    ensures forall txs :: DepositFree(txs) ==>
              SumBy(Run(b, txs).payouts, PaidTo(who)) <= SumBy(b.payouts, PaidTo(who)) + Withdrawable(b, who)
    ensures !b.paused ==>
              SumBy(Run(b, WithdrawAll(who, now, Oldest(b), |b.history|)).payouts, PaidTo(who)) ==
              SumBy(b.payouts, PaidTo(who)) + Withdrawable(b, who)
  {
    forall txs | DepositFree(txs)
      ensures SumBy(Run(b, txs).payouts, PaidTo(who)) <= SumBy(b.payouts, PaidTo(who)) + Withdrawable(b, who)
    {
      PaidFromWithdrawable(b, txs, who);
    }
    if !b.paused {
      assert b.history[Oldest(b)..Oldest(b)] == [];
      DrainRest(b, who, now, Oldest(b));
      PaidFromWithdrawable(b, WithdrawAll(who, now, Oldest(b), |b.history|), who);
    }
  }

  /** In a ring of one: deposit 5, deposit 7. */
  function StrandingRun(who: Address): seq<Tx> {
    [Tx(who, 0, MakeDeposit(5, "", "", "", 0)), Tx(who, 0, MakeDeposit(7, "", "", "", 0))]
  }

  lemma TwoSteps(b: Book, x: Tx, y: Tx)
    ensures Run(b, [x, y]) == Step(Step(b, x), y)
  {
    assert [x, y][1..] == [y] && [y][1..] == [];
    assert Run(Step(b, x), [y]) == Step(Step(b, x), y);
  }

  lemma StrandedBook(owner: Address, who: Address)
    ensures var b := Run(Init(owner, 1), StrandingRun(who));
            b == Book(owner, false, 1, [Entered(StrandingRun(who)[0], 0), Entered(StrandingRun(who)[1], 1)], [])
  {
    var txs := StrandingRun(who);
    TwoSteps(Init(owner, 1), txs[0], txs[1]);
    assert txs == [txs[0], txs[1]];
  }

  lemma SumOfOne(d: Deposit, who: Address)
    ensures SumBy([d], OwnedActive(who)) == if d.stakeholder == who && d.status == Active then d.amount else 0
  {
    assert [d] == [] + [d];
    SumByAppend([], d, OwnedActive(who));
    OwnedActiveAt(who, d);
  }

  lemma StrandedAmounts(owner: Address, who: Address)
    ensures var b := Run(Init(owner, 1), StrandingRun(who));
            Stranded(b, who) == 5 && Withdrawable(b, who) == 7 && ActiveOf(b, who) == 12
  {
    var b := Run(Init(owner, 1), StrandingRun(who));
    StrandedBook(owner, who);
    assert b.history[..1] == [b.history[0]] && b.history[1..] == [b.history[1]];
    SumOfOne(b.history[0], who);
    SumOfOne(b.history[1], who);
    BalanceSplit(b, who);
  }

  /** Two plain deposits strand the first: the 5 stay in the depositor's balance, active, and no later run pays them. */
  lemma StrandedForGood(owner: Address, who: Address, later: seq<Tx>)
    ensures var b := Run(Init(owner, 1), StrandingRun(who));
            && Stranded(b, who) == 5 && Withdrawable(b, who) == 7 && ActiveOf(b, who) == 12
            && |Run(b, later).history| >= 2 && Run(b, later).history[0].status == Active
            && forall m :: 0 <= m < |Run(b, later).payouts| ==> Run(b, later).payouts[m].index != 0
  {
    var b := Run(Init(owner, 1), StrandingRun(who));
    StrandedBook(owner, who);
    StrandedAmounts(owner, who);
    EvictedIsFrozen(b, later);
    assert Run(b, later).history[..1][0] == b.history[..1][0];
  }
}
