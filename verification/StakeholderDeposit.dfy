/**
 The deposit contract as it runs: a ring of records, a balance mapping, and u64 counters
 kept with wrapping `+` and saturating `-`. Every entry point refines one step of the book.
 */
module StakeholderDeposit {
  import opened Prelude
  import opened RingBuffer
  import opened StakeholderLedger
  import opened StakeholderCounters

  class StakeholderDeposit {
    var owner: Address
    var paused: bool
    var stakeholderActive: map<Address, U64>
    const deposits: Ring<Deposit>
    var depositCount: U64
    var totalDeposited: U64
    var totalActive: U64
    var totalWithdrawn: U64
    ghost var book: Book

    ghost predicate Valid()
      reads this, deposits
    {
      && deposits.Valid()
      && book.owner == owner && book.paused == paused
      && book.cap == deposits.cap && book.history == deposits.history
      && Consistent(book, Stored())
    }

    /** The stored numbers, as one value. */
    ghost function Stored(): Counters
      reads this
    {
      Counters(depositCount, totalDeposited, totalActive, totalWithdrawn, stakeholderActive)
    }

    constructor (owner: Address, maxHistory: U32)
      ensures Valid() && fresh(deposits)
      ensures book == Init(owner, maxHistory) && Stored() == ZERO
      ensures this.owner == owner && !paused && deposits.cap == (if maxHistory == 0 then 1 else maxHistory)
    {
      this.owner, paused, stakeholderActive := owner, false, map[];
      deposits := new Ring<Deposit>(Max(maxHistory, 1));
      depositCount, totalDeposited, totalActive, totalWithdrawn := 0, 0, 0, 0;
      book := Init(owner, maxHistory);
    }

    /** Emits an event and nothing else: the owner never changes. */
    method TransferOwnership(caller: Address, now: U64, newOwner: Address) returns (v: Verdict)
      requires Valid()
      ensures v == Judge(book, Tx(caller, now, Call.TransferOwnership(newOwner)))
      ensures Step(book, Tx(caller, now, Call.TransferOwnership(newOwner))) == book
    {
      v := if caller == owner then Done else Reverted(OnlyOwner);
    }

    method SetPaused(caller: Address, now: U64, p: bool) returns (v: Verdict)
      requires Valid()
      modifies this
      ensures Valid()
      ensures v == Judge(old(book), Tx(caller, now, Call.SetPaused(p)))
      ensures book == Step(old(book), Tx(caller, now, Call.SetPaused(p))) && Stored() == old(Stored())
    {
      if caller != owner {
        return Reverted(OnlyOwner);
      }
      paused := p;
      book := book.(paused := p);
      v := Done;
    }

    method MakeDeposit(caller: Address, now: U64, amount: U64, source: string, kind: string, hint: string, nonce: U64)
      returns (v: Verdict)
      requires Valid()
      modifies this, deposits
      ensures Valid()
      ensures v == Judge(old(book), Tx(caller, now, Call.MakeDeposit(amount, source, kind, hint, nonce)))
      ensures book == Step(old(book), Tx(caller, now, Call.MakeDeposit(amount, source, kind, hint, nonce)))
      ensures Stored() ==
              Count(old(Stored()), old(book), Tx(caller, now, Call.MakeDeposit(amount, source, kind, hint, nonce)))
    {
      if paused {
        return Reverted(ContractPaused);
      }
      if amount == 0 {
        return Reverted(ZeroAmount);
      }
      if |source| > 64 || |kind| > 32 || |hint| > 32 {
        return Reverted(TextTooLong);
      }
      var id := AddU64(depositCount, 1);
      AddU64Mod(|book.history|, 1);
      Enter(Deposit(id, caller, amount, source, kind, hint, now, Active, 0, 0, nonce));
      v := Done;
    }

    /** The bookkeeping of a deposit that passed its guards. */
    method Enter(d: Deposit)
      requires Valid()
      requires d.id == (|book.history| + 1) % U64_SIZE && d.amount > 0 && d.status == Active
      modifies this, deposits
      ensures Valid() && book == Append(old(book), d)
      ensures Stored() == Credit(old(Stored()), d.stakeholder, d.amount)
    {
      AppendKeeps(book, Stored(), d);
      depositCount := AddU64(depositCount, 1);
      var prevActive := Lookup(stakeholderActive, d.stakeholder);
      stakeholderActive := stakeholderActive[d.stakeholder := AddU64(prevActive, d.amount)];
      totalDeposited := AddU64(totalDeposited, d.amount);
      totalActive := AddU64(totalActive, d.amount);
      deposits.Push(d);
      book := Append(book, d);
    }

    method Withdraw(caller: Address, now: U64, depositId: U64) returns (v: Verdict)
      requires Valid()
      modifies this, deposits
      ensures Valid()
      ensures v == Judge(old(book), Tx(caller, now, Call.Withdraw(depositId)))
      ensures book == Step(old(book), Tx(caller, now, Call.Withdraw(depositId)))
      ensures Stored() == Count(old(Stored()), old(book), Tx(caller, now, Call.Withdraw(depositId)))
    {
      if paused {
        return Reverted(ContractPaused);
      }
      var n := Min(|deposits.slots|, deposits.cap);
      if n == 0 {
        return Reverted(NoDeposits);
      }
      var foundIdx := Scan(depositId);
      if foundIdx == None {
        return Reverted(DepositNotFound);
      }
      var idx := foundIdx.value;
      var d := deposits.slots[idx];
      if d.stakeholder != caller {
        return Reverted(NotYourDeposit);
      }
      if d.status != Active {
        return Reverted(AlreadyWithdrawn);
      }
      Settle(idx, d, caller, now);
      v := Done;
    }

    /** The bookkeeping of a withdrawal that passed its guards; the transfer is the new payout of the book. */
    method Settle(idx: nat, d: Deposit, caller: Address, now: U64)
      requires Valid() && idx < |deposits.slots| && deposits.slots[idx] == d
      requires d.stakeholder == caller && d.status == Active
      modifies this, deposits
      ensures Valid()
      ensures var i := Origin(idx, |old(book.history)|, old(deposits.head), deposits.cap);
              && 0 <= i < |old(book.history)|
              && book == PayOut(old(book), i, d.id, caller, now)
      ensures Stored() == Debit(old(Stored()), caller, d.amount)
    {
      ghost var i := Origin(idx, |book.history|, deposits.head, deposits.cap);
      HoldsAt(deposits.slots, deposits.head, deposits.cap, book.history, idx);
      PayOutKeeps(book, Stored(), i, d.id, caller, now);
      var updated := d.(status := Withdrawn, withdrawalTs := now, withdrawalAmount := d.amount);
      deposits.Replace(idx, updated);
      var prevActive := Lookup(stakeholderActive, caller);
      stakeholderActive := stakeholderActive[caller := SaturatingSub(prevActive, d.amount)];
      totalActive := SaturatingSub(totalActive, d.amount);
      totalWithdrawn := AddU64(totalWithdrawn, d.amount);
      book := PayOut(book, i, d.id, caller, now);
    }

    /** The linear scan over the ring, as both `withdraw` and `get_deposit` write it. */
    method Scan(id: U64) returns (foundIdx: Option<nat>)
      requires Valid()
      ensures foundIdx.Some? <==> Find(book.history, Oldest(book), id).Some?
      ensures foundIdx.Some? ==>
                && foundIdx.value < |deposits.slots|
                && Origin(foundIdx.value, |book.history|, deposits.head, deposits.cap)
                   == Find(book.history, Oldest(book), id).value
                && deposits.slots[foundIdx.value] == book.history[Find(book.history, Oldest(book), id).value]
    {
      deposits.HoldsSize();
      var n := Min(|deposits.slots|, deposits.cap);
      for i := 0 to n
        invariant forall j :: 0 <= j < i ==> deposits.slots[j].id != id
      {
        if deposits.slots[i].id == id {
          SlotIsFind(i, id);
          return Some(i);
        }
      }
      if Find(book.history, Oldest(book), id).Some? {
        SlotOf(deposits.slots, deposits.head, deposits.cap, book.history, Find(book.history, Oldest(book), id).value);
        assert false;
      }
      foundIdx := None;
    }

    /** `None` stands for the zeroed record with id 0 that the view returns when nothing matches. */
    method GetDeposit(id: U64) returns (r: Option<Deposit>)
      requires Valid()
      ensures r == match Find(book.history, Oldest(book), id) case None => None case Some(i) => Some(book.history[i])
      ensures |book.history| < U64_SIZE ==>
                r == if 1 <= id && |book.history| - deposits.cap < id <= |book.history|
                     then Some(book.history[id - 1]) else None
    {
      if |book.history| < U64_SIZE {
        FoundIff(book, id);
      }
      var idx := Scan(id);
      r := if idx.Some? then Some(deposits.slots[idx.value]) else None;
    }

    // ---- what the invariant says about counters, balances and ids ----

    /**
     After n deposits id k is stored iff n - cap < k <= n, always in slot (k - 1) mod cap and nowhere else,
     and head is n mod cap once the ring is full and 0 before.
     */
    lemma StoredIff(id: U64)
      requires Valid() && |book.history| < U64_SIZE
      ensures var n := |book.history|;
              && deposits.head == (if n < deposits.cap then 0 else n % deposits.cap)
              && ((exists j :: 0 <= j < |deposits.slots| && deposits.slots[j].id == id) <==>
                    1 <= id && n - deposits.cap < id <= n)
              && (1 <= id && n - deposits.cap < id <= n ==>
                    && (id - 1) % deposits.cap < |deposits.slots|
                    && deposits.slots[(id - 1) % deposits.cap] == book.history[id - 1]
                    && forall j :: 0 <= j < |deposits.slots| && deposits.slots[j].id == id ==>
                                     j == (id - 1) % deposits.cap)
    {
      FoundIff(book, id);
      forall j | 0 <= j < |deposits.slots| && deposits.slots[j].id == id
        ensures 1 <= id && |book.history| - deposits.cap < id <= |book.history| && j == (id - 1) % deposits.cap
      {
        StoredAt(j, id);
      }
      if 1 <= id && |book.history| - deposits.cap < id <= |book.history| {
        SlotOf(deposits.slots, deposits.head, deposits.cap, book.history, id - 1);
        assert book.history[id - 1].id == id;
      }
    }

    // ---- proof helpers ----

    lemma StoredAt(j: nat, id: U64)
      requires Valid() && |book.history| < U64_SIZE && j < |deposits.slots| && deposits.slots[j].id == id
      ensures 1 <= id && |book.history| - deposits.cap < id <= |book.history| && j == (id - 1) % deposits.cap
    {
      FoundIff(book, id);
      SlotIsFind(j, id);
      OriginMod(j, |book.history|, deposits.head, deposits.cap);
    }

    lemma SlotIsFind(j: nat, id: U64)
      requires Valid() && j < |deposits.slots| && deposits.slots[j].id == id
      ensures Find(book.history, Oldest(book), id) == Some(Origin(j, |book.history|, deposits.head, deposits.cap))
      ensures deposits.slots[j] == book.history[Origin(j, |book.history|, deposits.head, deposits.cap)]
    {
      HoldsAt(deposits.slots, deposits.head, deposits.cap, book.history, j);
      var k := Origin(j, |book.history|, deposits.head, deposits.cap);
      WindowIdsDistinct(book, k, Find(book.history, Oldest(book), id).value);
    }
  }
}
