/**
 The cache beside the deposit contract: kept in step when every successful call is recorded in it, and what it shows
 when, as in the deposit simulator, deposits are recorded on submission.
 */
module FundMirror {
  import opened Prelude
  import Ledger = StakeholderLedger
  import Contract = StakeholderDeposit
  import Counters = StakeholderCounters
  import opened FundState

  /** What the agent records for one contract call; a reverted call records nothing. */
  function Mirror(b: Ledger.Book, tx: Ledger.Tx): Option<Event> {
    if Ledger.Judge(b, tx) != Ledger.Done then None else
      match tx.call
      case MakeDeposit(amount, _, _, _, _) => Some(StakeholderDeposit(amount, 0))
      case Withdraw(id) =>
        var i := Ledger.Find(b.history, Ledger.Oldest(b), id).value;
        Some(StakeholderWithdrawal(b.history[i].amount))
      case _ => None
  }

  function MirrorStep(c: FundState, b: Ledger.Book, tx: Ledger.Tx): FundState {
    match Mirror(b, tx)
    case None => c
    case Some(e) => Apply(c, e, tx.now)
  }

  function MirrorRun(c: FundState, b: Ledger.Book, txs: seq<Ledger.Tx>): FundState
    decreases |txs|
  {
    if txs == [] then c else MirrorRun(MirrorStep(c, b, txs[0]), Ledger.Step(b, txs[0]), txs[1..])
  }

  ghost predicate Synced(c: FundState, b: Ledger.Book) {
    && c.stakeholderDeposits == |b.history|
    && c.stakeholderActiveMotes == Ledger.StillActive(b)
    && c.stakeholderTotalMotes == Ledger.Deposited(b)
    && c.stakeholderWithdrawnMotes == Ledger.TotalPaid(b)
  }

  /** The floor at zero never takes anything away: a mirrored withdrawal is covered by the cached active amount. */
  predicate NotFloored(c: FundState, e: Option<Event>) {
    e.Some? && e.value.StakeholderWithdrawal? ==> e.value.motes <= c.stakeholderActiveMotes
  }

  lemma MirrorStepSynced(c: FundState, b: Ledger.Book, tx: Ledger.Tx)
    requires Synced(c, b)
    ensures Synced(MirrorStep(c, b, tx), Ledger.Step(b, tx)) && NotFloored(c, Mirror(b, tx))
    ensures Mirror(b, tx).Some? ==> MirrorStep(c, b, tx).lastUpdated == tx.now
  {
    Ledger.StepCases(b, tx);
    if Ledger.Judge(b, tx) == Ledger.Done {
      if tx.call.MakeDeposit? {
        Counters.AppendMeasures(b, Ledger.Step(b, tx).history[|b.history|]);
      } else if tx.call.Withdraw? {
        var i := Ledger.Find(b.history, Ledger.Oldest(b), tx.call.id).value;
        Counters.PayOutMeasures(b, i, tx.call.id, tx.caller, tx.now);
      }
    }
  }

  lemma {:induction false} SyncedKept(c: FundState, b: Ledger.Book, txs: seq<Ledger.Tx>)
    requires Synced(c, b)
    ensures Synced(MirrorRun(c, b, txs), Ledger.Run(b, txs))
    ensures forall i :: 0 <= i < |txs| ==>
              NotFloored(MirrorRun(c, b, txs[..i]), Mirror(Ledger.Run(b, txs[..i]), txs[i]))
    decreases |txs|
  {
    if txs != [] {
      MirrorStepSynced(c, b, txs[0]);
      var c', b', rest := MirrorStep(c, b, txs[0]), Ledger.Step(b, txs[0]), txs[1..];
      SyncedKept(c', b', rest);
      forall i | 0 <= i < |txs|
        ensures NotFloored(MirrorRun(c, b, txs[..i]), Mirror(Ledger.Run(b, txs[..i]), txs[i]))
      {
        if i > 0 {
          assert txs[..i][1..] == rest[..i - 1] && rest[i - 1] == txs[i];
        }
      }
    }
  }

  /** A fresh cache beside a fresh contract stays in step with it through every run, evictions included. */
  lemma MirrorStaysSynced(started: nat, owner: Address, maxHistory: U32, txs: seq<Ledger.Tx>)
    ensures var c, b := DefaultState(started), Ledger.Init(owner, maxHistory);
            && Synced(MirrorRun(c, b, txs), Ledger.Run(b, txs))
            && forall i :: 0 <= i < |txs| ==>
                 NotFloored(MirrorRun(c, b, txs[..i]), Mirror(Ledger.Run(b, txs[..i]), txs[i]))
  {
    SyncedKept(DefaultState(started), Ledger.Init(owner, maxHistory), txs);
  }

  /**
   A synced cache shows three of the contract's counters up to multiples of 2^64, never less active than the contract,
   and all four outright while the lifetime total fits 64 bits.
   */
  lemma SyncedShowsContract(c: FundState, d: Contract.StakeholderDeposit)
    requires d.Valid() && Synced(c, d.book)
    ensures c.stakeholderDeposits % U64_SIZE == d.depositCount
    ensures c.stakeholderTotalMotes % U64_SIZE == d.totalDeposited
    ensures c.stakeholderWithdrawnMotes % U64_SIZE == d.totalWithdrawn
    ensures d.totalActive <= c.stakeholderActiveMotes
    ensures Ledger.Deposited(d.book) < U64_SIZE ==>
              && c.stakeholderDeposits == d.depositCount
              && c.stakeholderActiveMotes == d.totalActive
              && c.stakeholderTotalMotes == d.totalDeposited
              && c.stakeholderWithdrawnMotes == d.totalWithdrawn
  {
    Counters.ConsistentConserves(d.book, d.Stored());
    Counters.Bounds(d.book);
  }

  /** Performs a call and records it if it succeeded. */
  method CallAndRecord(contract: Contract.StakeholderDeposit, funds: FundCache, tx: Ledger.Tx)
    returns (v: Ledger.Verdict)
    requires contract.Valid()
    modifies contract, contract.deposits, funds
    ensures contract.Valid() && v == Ledger.Judge(old(contract.book), tx)
    ensures contract.book == Ledger.Step(old(contract.book), tx)
    ensures funds.cache == MirrorStep(old(funds.cache), old(contract.book), tx)
  {
    match tx.call {
      case TransferOwnership(newOwner) =>
        v := contract.TransferOwnership(tx.caller, tx.now, newOwner);
      case SetPaused(paused) =>
        v := contract.SetPaused(tx.caller, tx.now, paused);
      case MakeDeposit(amount, source, kind, hint, nonce) =>
        v := contract.MakeDeposit(tx.caller, tx.now, amount, source, kind, hint, nonce);
        if v == Ledger.Done {
          funds.RecordStakeholderDeposit(amount, 0, tx.now);
        }
      case Withdraw(id) =>
        var d := contract.GetDeposit(id);
        v := contract.Withdraw(tx.caller, tx.now, id);
        if v == Ledger.Done {
          funds.RecordStakeholderWithdrawal(d.value.amount, tx.now);
        }
    }
  }

  // ---- recording on submission ----

  /** The simulator records every deposit it submits, whatever becomes of it, and nothing else. */
  function SubmitStep(c: FundState, tx: Ledger.Tx): FundState {
    if tx.call.MakeDeposit? then Apply(c, StakeholderDeposit(tx.call.amount, 0), tx.now) else c
  }

  function SubmitRun(c: FundState, txs: seq<Ledger.Tx>): FundState
    decreases |txs|
  {
    if txs == [] then c else SubmitRun(SubmitStep(c, txs[0]), txs[1..])
  }

  /** Submits a deposit and records it. */
  method SubmitDeposit(contract: Contract.StakeholderDeposit, funds: FundCache, tx: Ledger.Tx)
    returns (v: Ledger.Verdict)
    requires contract.Valid() && tx.call.MakeDeposit?
    modifies contract, contract.deposits, funds
    ensures contract.Valid() && v == Ledger.Judge(old(contract.book), tx)
    ensures contract.book == Ledger.Step(old(contract.book), tx)
    ensures funds.cache == SubmitStep(old(funds.cache), tx) && funds.cache.lastUpdated == tx.now
  {
    var c := tx.call;
    v := contract.MakeDeposit(tx.caller, tx.now, c.amount, c.sourceLabel, c.sourceKind, c.strategyHint, c.nonce);
    funds.RecordStakeholderDeposit(c.amount, 0, tx.now);
  }

  /** How many deposits of a run the contract refuses, and how much they ask to deposit. */
  function Refused(b: Ledger.Book, txs: seq<Ledger.Tx>): (r: (nat, nat))
    decreases |txs|
  {
    if txs == [] then (0, 0) else
      var (n, amount), tx := Refused(Ledger.Step(b, txs[0]), txs[1..]), txs[0];
      if tx.call.MakeDeposit? && Ledger.Judge(b, tx) != Ledger.Done then (n + 1, amount + tx.call.amount)
      else (n, amount)
  }

  lemma {:induction false} SubmittedKept(c: FundState, b: Ledger.Book, txs: seq<Ledger.Tx>)
    ensures var c', b' := SubmitRun(c, txs), Ledger.Run(b, txs);
            && c'.stakeholderDeposits - c.stakeholderDeposits == |b'.history| - |b.history| + Refused(b, txs).0
            && c'.stakeholderActiveMotes - c.stakeholderActiveMotes
               == c'.stakeholderTotalMotes - c.stakeholderTotalMotes
            && c'.stakeholderTotalMotes - c.stakeholderTotalMotes
               == Ledger.Deposited(b') - Ledger.Deposited(b) + Refused(b, txs).1
            && c'.stakeholderWithdrawnMotes == c.stakeholderWithdrawnMotes
    decreases |txs|
  {
    if txs != [] {
      Ledger.StepCases(b, txs[0]);
      Counters.StepDeposited(b, txs[0]);
      SubmittedKept(SubmitStep(c, txs[0]), Ledger.Step(b, txs[0]), txs[1..]);
    }
  }

  /**
   Recorded on submission, the cache overstates by exactly the deposits the contract refused, and it never sees a
   withdrawal: its active figure is right iff nothing was refused and nothing paid out.
   */
  lemma SubmittedOverstates(started: nat, owner: Address, maxHistory: U32, txs: seq<Ledger.Tx>)
    ensures var c, init := SubmitRun(DefaultState(started), txs), Ledger.Init(owner, maxHistory);
            var b, refused := Ledger.Run(init, txs), Refused(init, txs);
            && c.stakeholderDeposits == |b.history| + refused.0
            && c.stakeholderTotalMotes == Ledger.Deposited(b) + refused.1
            && c.stakeholderActiveMotes == Ledger.StillActive(b) + Ledger.TotalPaid(b) + refused.1
            && (c.stakeholderActiveMotes == Ledger.StillActive(b) <==> Ledger.TotalPaid(b) == 0 && refused.1 == 0)
  {
    SubmittedKept(DefaultState(started), Ledger.Init(owner, maxHistory), txs);
    Ledger.RunSound(owner, maxHistory, txs);
    Counters.Bounds(Ledger.Run(Ledger.Init(owner, maxHistory), txs));
  }
}
