# ARWA agent: contracts and autonomous cycle, modelled and proved in Dafny

ARWA takes revenue from real-world assets, lets stakeholders entrust CSPR to an agent, and lets that agent run
strategies on a Casper exchange. This project models the parts of it that keep accounts and make decisions, and proves
what they keep over every run.

**The three contracts.** Each is modelled twice. The *book* (`StakeholderLedger`, `VaultLedger`, the registry in
`RevenueEmitter`) is an unbounded history of everything that ever happened, with one pure step per entry point. The
*contract* is a class with the source's own fields: a ring buffer of records, maps and machine-word counters, updated in
place. Every entry point is proved to take the same verdict and the same step as the book, so that the theorems about
runs of the book are theorems about the contract. All three contracts share one ring (`RingBuffer.Ring`), whose abstract
value is the full history.

**The scanner.** `TxScanner` cuts a transaction's JSON out of free text with a depth, a string flag and an escape flag. It
is proved against brace balance for any text, and against the grammar of RFC 8259 (sections 2 to 7, module `JsonText`) for
any object.

**The cycle.** `RiskGuard`, `Analyst`, `Executor`, `FundState` and `Cycle` model one autonomous cycle: circuit breaker,
proposal, confidence gate, execution, outcome and local cache. Every outside service (node, exchange, payment, language
model, clock) is an oracle with arbitrary answers, a throw included; exceptions used as control flow are modelled as such.

**Arithmetic and text.** `BalanceFormat` (the balance display), `PairSelector` (fee estimate and choice of pair) and `X402`
(client and server halves of the payment handshake).

## Conventions

- u64 `+` wraps and `saturating_sub` saturates, as the release profile compiles them (contracts/odra/Cargo.toml:17-22 does
  not ask for overflow checks, which are off there by default); 32-bit index arithmetic in the ring views wraps too.
  U256 `+` aborts the call on overflow.
- A reverted call is a `Reverted` verdict and changes nothing. Strings are sequences of bytes, one `char` each.
- Caller and block time are parameters of every entry point. Events are not modelled, the transfer of a withdrawal is
  (as a payout of the book).
- Amounts handed to `BigInt` are decimal digit strings; anything else throws, the empty string reads as zero.

## Where the code differs from what is said about it

- `stakeholder_deposit.rs:156-185`: a deposit that falls out of the ring while active still counts in every balance and total,
  but no later call can pay it out (`EvictedIsFrozen`); two plain deposits into a ring of one reach such a state
  (`StrandedForGood`). What can be paid is exactly the part still in the ring (`WithdrawableIsExact`).
  `transfer_ownership` (line 107) only emits an event; the owner never changes.
- `stakeholder_deposit.rs:155-162`: the lifetime counter wraps, so deposited = active + withdrawn fails for amounts past 64 bits;
  a concrete run is in `WrappingRunBreaksConservation`, the exact condition in `Conservation`.
- `README.md:710` and `README.md:749` of the repository say a tripped breaker holds and writes an audit entry. The hold proposal
  has confidence 0, so the gate in `index.ts:44` drops it: no run, no entry, no state change (`LatchedByStreak`).
- `riskGuard.ts:85-89` describes a ten-minute cooldown. In every reachable state it decides nothing: waiting never reopens the
  breaker (`CooldownIsRedundant`).
- `riskGuard.ts:6` promises a trip on a drop of more than the limit. Truncation to hundredths of a percent misses exactly the drops
  below the next hundredth of a percent (`DocumentedDrawdown`, with a concrete miss in `DocumentedDrawdownMissed`).
- A forced hold is recorded as a failed strategy (`executor.ts:41`, `executor.ts:162-164`); enough of them in a row stop the agent
  (`ForcedHoldsLatch`). A successful strategy that promised "0" out is snapshotted as value 0 and stops it as well, if any earlier
  snapshot was positive (`ZeroOutSuccessLatches`).
- `pairSelector.ts:43` calls the candidate list ranked. Its safe part keeps the exchange's order, so it is ranked iff the
  exchange listed the pairs that way (`RankedIff`; `NotAlwaysRanked` gives two listings where it did not). A quoted impact of
  zero counts as 999 (`SafeIff`).
- `test-add-lp-onchain.ts:55`: an object at position 0 of the text is dropped (`AnchorRecoversObject`).
- `index.ts:44`: a proposal without a numeric confidence passes the gate. That happens exactly when the confidence of whoever
  decides, paid signal or language model, is not a number, or when the language model, unforced, leaves it out
  (`UnscoredPassesGate`; `UnscoredSwapRuns` and `NoNumberRuns` give such cycles). A null counts as zero and is stopped.
- `x402Server.ts:192`: the nonce store compares texts, while the signed nonce is 32 bytes. Lower-case nonces rule a second
  acceptance of the same bytes out (`NoByteReplay`); otherwise it is possible exactly while another spelling is unused
  (`AcceptedAgainIff`), for a fresh value when the nonce has a letter (`FreshAcceptedAgainIff`).
- `depositSimulator.ts:135-139` records a deposit on submission and no source file records a withdrawal, so the cache that
  `fundState.ts` keeps for stakeholders overstates by what the contract refused or paid out (`SubmittedOverstates`).

## Model

| member | source | states |
|---|---|---|
| RingBuffer.Ring.Push | contracts/odra/revenue_emitter/src/revenue_emitter.rs:134-145 | push until full, then overwrite at head: the abstract history grows by exactly the new record and the ring keeps holding its last cap records |
| RingBuffer.Ring.Replace | contracts/odra/stakeholder_deposit/src/stakeholder_deposit.rs:236-241 | an in-place update changes the one history record the slot stands for and no other |
| RingBuffer.SlotOf | contracts/odra/stakeholder_deposit/src/stakeholder_deposit.rs:178-185 | history position k is held while among the last cap, and then in slot k mod cap |
| RingBuffer.WalkExact | contracts/odra/revenue_emitter/src/revenue_emitter.rs:186-195 | the backward modulo walk in 32-bit arithmetic visits the right slots if and only if no addition it uses passes 2^32, as a condition on head, cap and number of steps |
| RingBuffer.WalkSafeCaps | contracts/odra/revenue_emitter/src/revenue_emitter.rs:166-195 | the walk is safe for every head and length exactly when cap is at most 2^31 |
| RingBuffer.Ring.Recent | contracts/odra/revenue_emitter/src/revenue_emitter.rs:165-198 | the view returns the last min(limit, cap, n) of the full n-record history, oldest first, whenever the walk fits |
| StakeholderDeposit.StakeholderDeposit.constructor | contracts/odra/stakeholder_deposit/src/stakeholder_deposit.rs:94-103 | a fresh contract refines the empty book, with cap at least 1 |
| StakeholderDeposit.StakeholderDeposit.MakeDeposit | contracts/odra/stakeholder_deposit/src/stakeholder_deposit.rs:134-197 | takes the book's verdict and step: guards in order, one new active record numbered next, counters and balance kept consistent with the whole history |
| StakeholderDeposit.StakeholderDeposit.Withdraw | contracts/odra/stakeholder_deposit/src/stakeholder_deposit.rs:202-263 | takes the book's verdict and step: the scan finds the one held record with that id, and only its own active depositor is paid its amount |
| StakeholderDeposit.StakeholderDeposit.GetDeposit | contracts/odra/stakeholder_deposit/src/stakeholder_deposit.rs:267-292 | returns deposit k if and only if n - cap < k <= n, and then the k-th deposit with its present status |
| StakeholderDeposit.StakeholderDeposit.StoredIff | contracts/odra/stakeholder_deposit/src/stakeholder_deposit.rs:178-185 | id k is stored iff n - cap < k <= n, in slot (k - 1) mod cap and no other; head is n mod cap once full and 0 before |
| StakeholderCounters.RunConsistent | contracts/odra/stakeholder_deposit/src/stakeholder_deposit.rs:155-162 | after every run from deployment, however large the amounts: count, lifetime and withdrawn counters are exact modulo 2^64, active counter and balances never overstate, and an exact active counter means exact balances |
| StakeholderCounters.Conservation | contracts/odra/stakeholder_deposit/src/stakeholder_deposit.rs:298-312 | after every run from deployment deposited = active + withdrawn holds if and only if the sum fits 64 bits and the active counter is off by a multiple of 2^64; with an exact active counter, iff active + withdrawn < 2^64, and then the balance mapping sums to the active counter and each balance is withdrawable + stranded |
| StakeholderCounters.WrappingRunBreaksConservation | contracts/odra/stakeholder_deposit/src/stakeholder_deposit.rs:155-162 | deposit 2^64 - 1, deposit 2, withdraw the 2: the contract shows 1 deposited, 0 active, 2 withdrawn while 2^64 - 1 is still active |
| StakeholderCounters.OneBoundSuffices | contracts/odra/stakeholder_deposit/src/stakeholder_deposit.rs:243-249 | after every run from deployment whose lifetime total fits 64 bits, the single check total_deposited + amount < 2^64 keeps it there, no other u64 addition overflows and neither subtraction saturates |
| StakeholderCounters.ExactAfterDeposit | contracts/odra/stakeholder_deposit/src/stakeholder_deposit.rs:156-162 | a deposit leaves the active counter exact if and only if it was exact and active + amount < 2^64 |
| StakeholderCounters.ExactAfterWithdrawal | contracts/odra/stakeholder_deposit/src/stakeholder_deposit.rs:243-249 | a withdrawal leaves the active counter exact if and only if it was exact or nothing is left active |
| StakeholderCounters.RunExact | contracts/odra/stakeholder_deposit/src/stakeholder_deposit.rs:155-162 | if every deposit of a run from deployment finds active + amount < 2^64 on the stored counter, whatever the lifetime total, the active counter and every balance are exact after it |
| StakeholderCounters.RunBounded | contracts/odra/stakeholder_deposit/src/stakeholder_deposit.rs:160-162 | if every deposit of a run from deployment passes that check on the stored lifetime counter, the true lifetime total stays below 2^64 |
| StakeholderLedger.PaidAtMostOnce | contracts/odra/stakeholder_deposit/src/stakeholder_deposit.rs:217-255 | over any run from deployment no deposit is paid twice, each payout goes to its depositor for exactly its amount, and deposited = active + paid out |
| StakeholderLedger.RunSound | contracts/odra/stakeholder_deposit/src/stakeholder_deposit.rs:134-263 | after every run from deployment ids count up from 1, and payouts and withdrawn records correspond |
| StakeholderLedger.DepositIff | contracts/odra/stakeholder_deposit/src/stakeholder_deposit.rs:134-177 | a deposit is entered iff not paused, amount positive and labels within 64, 32 and 32 bytes; then exactly that record is appended; the first failing guard is the reason, and a refused deposit changes nothing |
| StakeholderLedger.OwnerCalls | contracts/odra/stakeholder_deposit/src/stakeholder_deposit.rs:107-120 | the pause flag moves to the given value iff the owner calls, and by no other call; transferring ownership changes nothing |
| StakeholderLedger.RecordsAreKept | contracts/odra/stakeholder_deposit/src/stakeholder_deposit.rs:236-241 | no run changes what a record says, only whether it is settled, and a settled record is final |
| StakeholderLedger.DepositsWereMade | contracts/odra/stakeholder_deposit/src/stakeholder_deposit.rs:142-177 | every record was entered by a successful deposit call, in order, and still carries that call's caller, time and arguments |
| StakeholderLedger.EvictedIsFrozen | contracts/odra/stakeholder_deposit/src/stakeholder_deposit.rs:178-185 | a record that has left the ring is never changed by any later run, and no later payout is for it; owner and cap never change |
| StakeholderLedger.StrandedForGood | contracts/odra/stakeholder_deposit/src/stakeholder_deposit.rs:178-185 | in a ring of one, deposit 5 and deposit 7: the balance is 12, 7 of it withdrawable, and no later run pays or settles the 5 |
| StakeholderLedger.FoundIff | contracts/odra/stakeholder_deposit/src/stakeholder_deposit.rs:217-234 | the lookup by id succeeds iff n - cap < id <= n and then names the id-th deposit |
| StakeholderLedger.WithdrawSucceedsIff | contracts/odra/stakeholder_deposit/src/stakeholder_deposit.rs:202-241 | a withdrawal succeeds iff not paused, n - cap < id <= n, and the id-th deposit is the caller's and active |
| StakeholderLedger.WithdrawEffect | contracts/odra/stakeholder_deposit/src/stakeholder_deposit.rs:202-263 | a successful withdrawal marks that one record with time and amount and pays its amount to its depositor once, nothing else; each refusal has its own exact condition |
| StakeholderLedger.SettlesIff | contracts/odra/stakeholder_deposit/src/stakeholder_deposit.rs:202-241 | even after the 64-bit ids have wrapped, asking for an active record's id settles that very record iff not paused, still in the ring, and the caller's |
| StakeholderLedger.BalanceSplit | contracts/odra/stakeholder_deposit/src/stakeholder_deposit.rs:294-296 | a balance is the part still withdrawable plus the part evicted while active |
| StakeholderLedger.WithdrawableIsExact | contracts/odra/stakeholder_deposit/src/stakeholder_deposit.rs:202-263 | no deposit-free run pays a stakeholder more than their withdrawable part, and, unpaused, withdrawing every held id pays exactly that |
| RevenueEmitter.RevenueEmitter.EmitRevenue | contracts/odra/revenue_emitter/src/revenue_emitter.rs:109-159 | takes the registry's verdict and step; per-asset totals stay exact, and an overflowing total reverts the call |
| RevenueEmitter.RevenueEmitter.AcceptOwnership | contracts/odra/revenue_emitter/src/revenue_emitter.rs:83-92 | only the nominee becomes owner and the nomination is cleared |
| RevenueEmitter.RevenueEmitter.GetRecentEvents | contracts/odra/revenue_emitter/src/revenue_emitter.rs:165-198 | the last min(limit, cap, n) events of all ever emitted, oldest first |
| RevenueEmitter.RevenueEmitter.TotalsCoverHistory | contracts/odra/revenue_emitter/src/revenue_emitter.rs:147-149 | each asset's total is the sum over the full history, overwritten events included, and the totals add up to everything emitted |
| RevenueEmitter.OwnerChangesOnlyByAcceptance | contracts/odra/revenue_emitter/src/revenue_emitter.rs:78-92 | over any run the owner changes only when the address last nominated by the owner in force accepts |
| RevenueEmitter.EmitIff | contracts/odra/revenue_emitter/src/revenue_emitter.rs:109-149 | the log grows iff emitter or owner emits, unpaused, a positive amount with texts within 64 and 128 bytes that the asset's total can take; then by exactly that event; each refusal's exact condition |
| RevenueEmitter.OwnerCalls | contracts/odra/revenue_emitter/src/revenue_emitter.rs:78-107 | nominee, emitter and pause flag are moved by the owner alone, ownership by the nominee's acceptance alone, each with nothing else |
| RevenueEmitter.NominationConsumedOnce | contracts/odra/revenue_emitter/src/revenue_emitter.rs:83-92 | two acceptances never use the same nomination |
| RevenueEmitter.EventsWereAuthorized | contracts/odra/revenue_emitter/src/revenue_emitter.rs:116-132 | every logged event was emitted, while not paused, by whoever was emitter or owner at that moment, with exactly the arguments given |
| AgentVault.AgentVault.ExecuteStrategy | contracts/odra/agent_vault/src/agent_vault.rs:153-212 | takes the ledger's verdict and step: agent and minimum guards, one decision more, reputation and totals consistent with the history |
| AgentVault.AgentVault.DepositForStrategy | contracts/odra/agent_vault/src/agent_vault.rs:265-292 | takes the ledger's verdict and step; both custody counters move together |
| AgentVault.AgentVault.RecordStrategyExecution | contracts/odra/agent_vault/src/agent_vault.rs:297-335 | takes the ledger's verdict and step; the new position carries the next id of the wrapping 64-bit counter |
| AgentVault.AgentVault.FindPosition | contracts/odra/agent_vault/src/agent_vault.rs:351-362 | the loop finds the first index that carries the id, or u32::MAX; below 2^32 positions that sentinel never collides with an index and an id is found iff 1 <= id <= count |
| AgentVault.AgentVault.RecordYieldRealised | contracts/odra/agent_vault/src/agent_vault.rs:339-379 | takes the ledger's verdict and step: one claim more, added to its own position and to the total |
| AgentVault.AgentVault.WithdrawForStrategy | contracts/odra/agent_vault/src/agent_vault.rs:385-406 | takes the ledger's verdict and step; never more than the custody left |
| AgentVault.AgentVault.GetDecisionLog | contracts/odra/agent_vault/src/agent_vault.rs:226-254 | the last min(limit, cap, n) decisions of all ever recorded, oldest first |
| AgentVault.AgentVault.GetPosition | contracts/odra/agent_vault/src/agent_vault.rs:426-448 | returns the whole record as it was opened, with the yield claimed for it since, or the zeroed record; below 2^64 - 1 positions an id is found iff 1 <= id <= count |
| AgentVault.AgentVault.YieldsAddUp | contracts/odra/agent_vault/src/agent_vault.rs:364-370 | the position counter is the list length modulo 2^64, total yield = the sum over positions, position i carries the i-th id, below 2^32 positions i + 1 and no index is the sentinel; custody = total moved in minus all withdrawals |
| AgentVault.AgentVault.ReputationAddsUp | contracts/odra/agent_vault/src/agent_vault.rs:203-211 | modulo 2^64, however long the history: the strategy counter is its length, global reputation the number of its successes, each agent's the count of their own; below 2^64 successes the reputations are exact and the global one is the sum over the agents; ring and agent register do not matter |
| VaultLedger.RunSound | contracts/odra/agent_vault/src/agent_vault.rs:385-406 | after every run from deployment withdrawals never exceed deposits, ids are in order, claims are on existing positions, no decision is below the minimum |
| VaultLedger.ExecuteIff | contracts/odra/agent_vault/src/agent_vault.rs:153-212 | a decision is logged iff the caller is an agent and the amount at least the minimum, under the caller's address, block time and all given arguments; each refusal's exact condition |
| VaultLedger.DepositIff | contracts/odra/agent_vault/src/agent_vault.rs:265-292 | money is moved in iff an agent moves a positive amount, label within 64 bytes, total within 256 bits; each refusal's exact condition |
| VaultLedger.WithdrawIff | contracts/odra/agent_vault/src/agent_vault.rs:385-406 | custody is withdrawn iff an agent withdraws a positive amount, up to and including all that is left, reason within 64 bytes; each refusal's exact condition |
| VaultLedger.OpenIff | contracts/odra/agent_vault/src/agent_vault.rs:297-335 | a position is opened iff an agent opens it with a positive amount and texts within 32, 64 and 64 bytes, with the next id, the block time and no yield; each refusal's exact condition |
| VaultLedger.ClaimIff | contracts/odra/agent_vault/src/agent_vault.rs:339-379 | yield is booked iff an agent books a positive amount, reference within 64 bytes, on an id that is found, total within 256 bits; below 2^32 positions an id is found iff 1 <= id <= count; each refusal's exact condition |
| VaultLedger.RegisterIff | contracts/odra/agent_vault/src/agent_vault.rs:133-151 | only the owner registers and unregisters, only the named address, and no other call touches the register, the owner or the minimum |
| VaultLedger.AgentAfterRun | contracts/odra/agent_vault/src/agent_vault.rs:133-151 | after any run an address is an agent iff the owner's last call about it was a registration, or there was none and it was one before |
| VaultLedger.AcceptedFromAgents | contracts/odra/agent_vault/src/agent_vault.rs:166-170 | from deployment on a sufficient decision is accepted iff the owner last registered its caller, or never spoke of them and they are owner or first agent |
| VaultLedger.HistoryGrows | contracts/odra/agent_vault/src/agent_vault.rs:143-151 | no run takes a success back, not even one that unregisters the agent |
| VaultLedger.DecisionsByAgents | contracts/odra/agent_vault/src/agent_vault.rs:166-194 | every decision was recorded by an agent authorised at that moment, under their own address, with exactly the arguments given |
| VaultLedger.ClaimsByPosition | contracts/odra/agent_vault/src/agent_vault.rs:364-370 | the per-position yields add up to the sum of all claims |
| TxScanner.ExtractTx | agent/scripts/test-add-lp-onchain.ts:59-78 | the one-pass loop with its early exit computes Extract, whose meaning the next two rows give |
| TxScanner.ExtractIsFirstBalanced | agent/scripts/test-add-lp-onchain.ts:59-78 | for any text the result is the shortest stretch from start ending at a structural brace with balance zero, and null exactly when there is none; strings and escapes defined by counting quotes and backslashes |
| TxScanner.ExtractsObject | agent/scripts/test-add-lp-onchain.ts:59-78 | for every JSON object text, before any suffix and after any prefix, exactly that object's text is cut out, whatever it nests, quotes or escapes |
| TxScanner.PassValue | agent/scripts/test-add-lp-onchain.ts:64-75 | inside an open object any JSON value passes without changing depth, string or escape state |
| TxScanner.WalkBack | agent/scripts/test-add-lp-onchain.ts:52-55 | ends at or before the anchor, on an opening brace or at 0, with no opening brace in between |
| TxScanner.AnchorRecoversObject | agent/scripts/test-add-lp-onchain.ts:49-84 | from an anchor anywhere in an object exactly that object is recovered, from its own position, if and only if some text precedes it and no other opening brace lies between its brace and the anchor |
| TxScanner.FirstKeyRecoversObject | agent/scripts/test-add-lp-onchain.ts:49-57 | from the anchor on an object's first key it is recovered if and only if some text precedes it |
| RiskGuard.MeaningStep | agent/src/agent/riskGuard.ts:189-234 | after any sequence of outcomes, snapshots and resets the record is: peak = largest snapshot, streak = failures since the last success or reset, cooldown and lifetime counters as the log says |
| RiskGuard.CountersSplit | agent/src/agent/riskGuard.ts:192-198 | lifetime strategies = successes + reverts |
| RiskGuard.RiskGuard.RecordStrategyOutcome | agent/src/agent/riskGuard.ts:189-210 | the saved record is the meaning of the log with this outcome added |
| RiskGuard.RiskGuard.UpdatePortfolioSnapshot | agent/src/agent/riskGuard.ts:216-223 | the saved record is the meaning of the log with this snapshot added |
| RiskGuard.RiskGuard.ResetCircuitBreaker | agent/src/agent/riskGuard.ts:229-234 | the saved record is the meaning of the log with a reset added |
| RiskGuard.RiskGuard.CheckCircuitBreaker | agent/src/agent/riskGuard.ts:123-174 | tripped iff the cooldown runs or drawdown or streak is over its limit; the reason is the first of these in that order that holds; nothing is changed |
| RiskGuard.DrawdownTripsExactly | agent/src/agent/riskGuard.ts:176-183 | for every limit the drawdown trips iff peak > 0 and 10000 (peak - last) >= (floor(100 limit) + 1) peak |
| RiskGuard.WholePercentTripsExactly | agent/src/agent/riskGuard.ts:176-183 | for a whole-percent limit m that is from m + 0.01 percent of the peak on |
| RiskGuard.DocumentedDrawdown | agent/src/agent/riskGuard.ts:6-8 | for every limit it never trips on a drop that is not above it, and on a drop above it trips exactly from the next hundredth of a percent on |
| RiskGuard.DocumentedDrawdownMissed | agent/src/agent/riskGuard.ts:144-144 | a drop of 10.005 percent does not trip a limit of 10 |
| RiskGuard.CooldownNotShortened | agent/src/agent/riskGuard.ts:194-208 | no success, failure or snapshot shortens a running cooldown |
| RiskGuard.HeldTenMinutes | agent/src/agent/riskGuard.ts:89-89 | the failure that brings the streak to its limit at time t keeps the breaker tripped for all times before t + 600000 ms by the cooldown alone |
| FundState.TotalCovered | agent/src/agent/fundState.ts:128-153 | from the default state, after any records in any order, deposited is at most active + withdrawn |
| FundState.ReplayAddsUp | agent/src/agent/fundState.ts:83-153 | between resets every figure that only grows is the tally of its events; custody is never below inflow less outflow, and equal iff no outflow exceeded it |
| FundState.ResetForgets | agent/src/agent/fundState.ts:155-158 | a reset leaves the default figures whatever came before |
| FundMirror.MirrorStaysSynced | agent/src/agent/fundState.ts:128-153 | mirroring every successful call of a run from deployment in a fresh cache keeps the four stakeholder figures equal to the book's, and the floor never takes anything away |
| FundMirror.CallAndRecord | agent/src/agent/fundState.ts:128-153 | a contract call and its record: the contract takes the book's step and the cache the mirror's |
| FundMirror.SubmitDeposit | agent/src/simulator/depositSimulator.ts:101-139 | a deposit is recorded whether the contract then accepts or refuses it |
| FundMirror.SubmittedOverstates | agent/src/simulator/depositSimulator.ts:135-139 | recorded that way, over every run from deployment the cache overstates count and total by exactly the refused deposits, and its active figure is right iff nothing was refused and nothing paid out |
| FundMirror.SyncedShowsContract | contracts/odra/stakeholder_deposit/src/stakeholder_deposit.rs:298-312 | those figures are the contract's counters up to multiples of 2^64, its active counter never above; below the 64-bit bound all four are equal |
| Analyst.RunAnalyst | agent/src/analyst.ts:82-328 | the step-by-step analyst yields the proposal (or the throw) that Propose gives for the breaker's state |
| Analyst.ForcedPassesGate | agent/src/analyst.ts:239-298 | a forced action always passes the confidence gate; a forced hold is a hold; the action is a stake iff forced and the amount reaches the minimum |
| Analyst.ForcedProposal | agent/src/analyst.ts:239-298 | action, pair, token, amounts and validator of the proposal for each of the six forced actions |
| Analyst.HeuristicProposal | agent/src/analyst.ts:54-76 | unforced, the heuristic adds liquidity iff the impact is below 1 % and the signal bullish, else swaps for at least the quote less half a percent |
| Analyst.ModelProposal | agent/src/analyst.ts:224-231 | unforced, the language model's decision is proposed as it stands; a stake gets the configured or fallback validator and its own label |
| Analyst.TrippedProposal | agent/src/analyst.ts:356-372 | a tripped breaker gives the hold proposal with confidence zero |
| Analyst.ScoreOfProposal | agent/src/analyst.ts:207-207 | a score ends up clamped to 0..100 on the heuristic path, raised to 60 under a forced action, and unchanged otherwise |
| Analyst.SlippageIsHalfPercent | agent/src/analyst.ts:73-73 | the minimum out is the printed floor of 99.5 % of the quote; a quote that is no number throws |
| Analyst.ProposesIff | agent/src/analyst.ts:200-328 | untripped, there is a proposal iff nothing the analyst reads makes it throw, and then its confidence is the decider's after clamp, floor and default, with missing, null and non-numeric values carried as the language does |
| Executor.Executor.TryStrategy | agent/src/executor.ts:35-142 | whatever is thrown where, submissions, cache entries and the outcome left behind are those of Classify |
| Executor.Executor.RunExecutor | agent/src/executor.ts:24-203 | one run appends one run record and one audit entry, submits what Classify says, and updates guard and cache accordingly |
| Executor.RunIsSafe | agent/src/executor.ts:38-94 | at most one submission per run, none on a hold, no stake below the minimum, and only a submitted and successful run is recorded |
| Executor.HoldsIff | agent/src/executor.ts:38-43 | a run holds, and is skipped, iff the amount is "0" or the pair "HOLD" |
| Executor.SubmitsIff | agent/src/executor.ts:47-112 | when a run submits anything, and then what: the full amount to the proposal's validator or the fallback for a stake from the minimum on, else the exchange transaction for the amount in whole units of 10^9 |
| Executor.OutcomeFollowsReply | agent/src/executor.ts:70-119 | success, reverted or failed according to the reply of the submission; neither submitted nor held means failed |
| Executor.RecordedIff | agent/src/executor.ts:76-137 | a run is recorded iff it succeeded, the vault took the record and, for a stake, the proposal named a validator |
| Executor.RunLeavesBehind | agent/src/executor.ts:155-173 | what guard and cache become after a run, field by field, with the literal cooldown and the snapshot rule |
| Cycle.Orchestrator.RunCycle | agent/src/index.ts:14-52 | one cycle moves the agent's state by exactly one pure step, and the executor runs exactly when the analyst answers and the gate lets it |
| Cycle.NeverStartsTripped | agent/src/analyst.ts:129-135 | over any run the executor never starts while the breaker is tripped, judged at the time of the check and at the later time of execution |
| Cycle.StartsIff | agent/src/index.ts:39-49 | a cycle runs the executor iff the breaker is untripped, keys are there, the analyst answers, and the decider's confidence gets through: a number of at least 50 or any under a forced action, no number at all, or, from the unforced language model, none given |
| Cycle.UnscoredPassesGate | agent/src/index.ts:44-47 | what runs has a confidence of at least 50, except exactly when the decider's is not a number or the unforced language model leaves it out |
| Cycle.UnscoredSwapRuns | agent/src/analyst.ts:224-231 | a first cycle from a fresh state in which the language model's swap without a confidence is executed |
| Cycle.NoNumberRuns | agent/src/analyst.ts:203-208 | a first cycle from a fresh state in which the heuristic's deposit is executed on a signal whose confidence is no number |
| Cycle.LatchedByStreak | agent/src/agent/riskGuard.ts:155-164 | with the streak at its limit every cycle at any time leaves everything unchanged, audit log included, and only a reset ends it |
| Cycle.LatchedByDrawdown | agent/src/agent/riskGuard.ts:144-153 | with the drawdown over its limit no cycle runs and no reset helps; only an outside snapshot ends it |
| Cycle.CooldownIsRedundant | agent/src/agent/riskGuard.ts:85-89 | in every state reached from the initial one the breaker is tripped iff streak or drawdown is over its limit, whatever the time |
| Cycle.RunAccounted | agent/src/executor.ts:155-203 | over every run from the initial state: lifetime strategies = executor runs = audit entries; positionsOpened and custodianMotes are count and sum over exactly the recorded, successful runs; each run safe |
| Cycle.CycleIsLogged | agent/src/executor.ts:175-200 | a cycle that starts adds exactly one run and one audit entry that repeats the proposal's action and amount with the run's outcome; any other changes nothing |
| Cycle.OperatorOps | agent/src/agent/riskGuard.ts:216-234 | a reset clears streak and cooldown only; an outside snapshot moves last value and peak only |
| Cycle.ResetReopens | agent/src/agent/riskGuard.ts:229-234 | after a reset the breaker is tripped iff the drawdown is over its limit |
| Cycle.ForcedHoldsLatch | agent/src/executor.ts:38-43 | maxRevertStreak forced holds in a row trip the breaker for good |
| Cycle.ZeroOutSuccessLatches | agent/src/executor.ts:165-170 | a success that promised "0" out trips the drawdown iff an earlier snapshot was positive |
| BalanceFormat.FormatIsExact | agent/src/casper/balanceCheck.ts:140-148 | for every amount and decimals count a decimal reader of the display recovers the amount |
| BalanceFormat.FormatIsInjective | agent/src/casper/balanceCheck.ts:140-148 | two different amounts never display the same |
| BalanceFormat.FormatIsCanonical | agent/src/casper/balanceCheck.ts:145-147 | a point is shown exactly for amounts that are not whole, with at most `decimals` digits after it, no trailing zero, and no leading zero except a whole part of zero |
| Decimal.ParseNatReads | agent/src/casper/balanceCheck.ts:140-148 | the numeral reader behind every `BigInt(text)`: digits only, most significant first, the empty text zero, anything else none |
| PairSelector.ApyBounds | agent/src/agent/pairSelector.ts:61-68 | for reserves r > 0: 365 fee - 3650000 / r - 1 < apyBps <= 365 fee |
| PairSelector.ApyExact | agent/src/agent/pairSelector.ts:61-68 | the estimate exactly: a day's fees rounded down, a year of them over the reserves rounded down, zero without reserves |
| PairSelector.CandidatesAreListings | agent/src/agent/pairSelector.ts:107-173 | the candidates are, in order, the listings with CSPR on one side, both sides named and the label not excluded; each names the other side as the token bought and carries its own reserves, fee, rating and yield |
| PairSelector.BetterIff | agent/src/agent/pairSelector.ts:181-187 | the comparator puts the staked pair first and then the higher yield |
| PairSelector.SelectBestPair | agent/src/agent/pairSelector.ts:88-197 | null iff no candidate is safe, otherwise the earliest safe one that none beats: staked if any safe one is, and of no lower yield than any other of its kind; the list is every evaluated candidate once, the safe ones first, both parts in the exchange's order |
| PairSelector.SortPicksFirstBest | agent/src/agent/pairSelector.ts:181-187 | the head of the stable ranking is the earliest candidate that none beats in (is sCSPR, yield) |
| PairSelector.SafeIff | agent/src/agent/pairSelector.ts:131-159 | safe iff the rating is not high risk and the impact, with 999 for zero or no number, is within the limit |
| PairSelector.FilterPartitions | agent/src/agent/pairSelector.ts:178-194 | the two filters use different tests, yet on the candidates the selector builds they split without loss or duplication: no candidate called safe is high risk |
| PairSelector.RankedIff | agent/src/agent/pairSelector.ts:192-194 | the safe part of the list is in ranking order if and only if no acceptable listing beats an acceptable one listed before it |
| PairSelector.NotAlwaysRanked | agent/src/agent/pairSelector.ts:192-194 | two listings, the staked pair second, whose list is not in ranking order |
| X402.Server.VerifySignature | agent/scripts/x402Server.ts:163-340 | the checks in order, the recovery-bit loop, and the nonce recorded exactly on acceptance |
| X402.AcceptedIff | agent/scripts/x402Server.ts:163-340 | any payload with any key and signature is accepted iff network, payee and amount are the server's, the nonce has 64 characters and is fresh, the clock is in the window less 6 seconds, the signature recovers under one of two bits, and the key's account hash is the payer |
| X402.FirstFailureIsGiven | agent/scripts/x402Server.ts:163-340 | the reason of a refusal is that of the first of the twelve checks that fails |
| X402.BuildPayload | agent/src/x402/client.ts:149-301 | the stepwise construction gives the honest payload for the requirements, with override and default timeout |
| X402.TenMinutesByDefault | agent/src/x402/client.ts:200-200 | without a timeout from the server the window ends ten minutes on |
| X402.PayeeRecovers | agent/scripts/x402Server.ts:51-51 | a payee configured with or without tag, or behind any other lead, stands for its last 64 characters |
| X402.HonestAcceptedIff | agent/src/x402/client.ts:198-202 | with a genuine signature the payload is accepted iff the amount is the server's, the nonce is fresh, and server time minus client time lies in [-5, T - 6] |
| X402.HonestFields | agent/src/x402/client.ts:170-177 | address normalisation of client and server composes to the identity for payee and payer |
| X402.ParsingRecovers | agent/scripts/x402Server.ts:119-122 | the prefixed, tagged and bare forms of any 64-character hash all parse back to it |
| X402.PrefixingIsPlain | agent/scripts/x402Server.ts:114-117 | stripping and re-padding leading zeros changes no 64-character hash |
| X402.NoReplay | agent/scripts/x402Server.ts:192-194 | over any sequence of requests no nonce text is accepted twice, and the store is exactly what was used before plus what was accepted |
| X402.NoByteReplay | agent/scripts/x402Server.ts:258-262 | with lower-case nonces only, no 32-byte nonce value is accepted twice, nor one that was used before |
| X402.AcceptedAgainIff | agent/scripts/x402Server.ts:189-194 | right after its acceptance a payload is accepted again under another spelling of the same 32 bytes if and only if some other spelling is not in the store |
| X402.FreshAcceptedAgainIff | agent/scripts/x402Server.ts:189-194 | where the store held no spelling of the value, that is if and only if the nonce holds a letter |
| X402.TwoSpellingsAccepted | agent/scripts/x402Server.ts:189-194 | the client's own payload with nonce aa..a, then with AA..A |

## Left out

- Purse balances and gas: the deposit contract is not payable and its transfer is taken to succeed.
- Emitted contract events, and the plain getters that return one field.
- The list library's own 32-bit length: the vault's position list is unbounded here; results about the sentinel are stated
  below 2^32 positions.
- The regular expression that finds hash anchors: the anchor position is an input of the walk-back.
- Overlapping cycles and overlapping payment requests: both are modelled one after another.
- Network, node, exchange, payment settlement and language-model code: arbitrary answers, or a throw.
- Cryptography, base64 and JSON library calls: whether a signature recovers to the given key is an input.
- Saving and loading of the risk and fund files: what is saved is taken to be what is loaded next; limits from the environment are constants.
- Floating point: drawdown percentages are exact rationals, yields are compared in basis points, confidences are reals.
- BigInt texts with sign, hexadecimal prefix or surrounding space, and negative amounts.
- The texts of reasons, rationales and log lines, and the transaction hash the executor passes to the audit log.
- The fund cache's recorders that no source file calls (custody withdrawal, claimed yield, reset): events of `FundState.Apply`
  only, not methods.
- The engine's sort is modelled as a stable insertion sort.
- Deployment and setup scripts, the simulators apart from when they record a deposit, the frontend and the HTTP routes.
