# HTLC escrow ledger, modelled in Dafny

This project models the Stellar (Soroban) Hashed Timelock Contract of
`contracts/stellar/src/lib.rs`. A sender locks an amount of one token for a receiver.
The receiver releases it by revealing a secret whose keccak256 hash was committed at
creation (`withdraw`). Once the timelock has passed, the sender may take it back
(`cancel`). Records live in the contract's persistent storage under
`keccak256(order_id)`. Each record moves through `Open -> Withdrawn` or
`Open -> Cancelled`, and is never deleted.

Layout, one module per file:

- `types.dfy` (`HtlcTypes`): the `Escrow` record, the `HTLCError` enumeration with its
  `u32` codes, `u64`/`i128` as newtypes, and `Outcome`. An `Outcome` is a value, one of the
  contract's errors, or `Trap` (a foreign call panicked and the invocation aborted).
- `token.dfy` (`Token`): the token contract seen through its interface. It is a
  balance per (token, holder). Its `transfer` refuses a negative amount or an overdraft.
- `ledger.dfy` (`EscrowLedger`): the host state as a value (`Ledger`: storage,
  balances, clock, own address). Each entry point is a function from the ledger before
  the call to the outcome and the ledger after it. It also holds the three read-only
  predicates and `generate_secret_hash`.
- `contract.dfy` (`Contract`): the class `HtlcEscrow`. Its fields are the storage map,
  the balances and the clock. Its methods perform `create_escrow`, `withdraw` and
  `cancel` step by step, in the contract's order: guards with early return, then the
  storage write and the token transfer. Each method is proved equal to its
  `EscrowLedger` function and keeps the object invariant.
- `lifecycle.dfy` (`Lifecycle`): the state machine. It covers the invariant, finality of
  both resolutions, the read-only predicates against the operations, and reused order ids.
- `custody.dfy` (`Custody`): for each token, the contract's balance covers the sum of
  its open escrows' amounts (`Solvent`). This is kept by every entry point except a
  create whose sender is the contract itself. Under it, no payout or refund can trap.
- `trace.dfy` (`Trace`): arbitrary sequences of calls. Without a create that reuses an
  identifier, that identifier is paid out at most once.
- `scenarios.dfy` (`Scenarios`): end-to-end runs (withdraw before the deadline,
  refund after it, an unfunded create, a deadline equal to the clock).

External collaborators become parameters or plain state:

- keccak256 is the function-valued parameter `hash` (no property of it is assumed).
- The ledger timestamp is the field `now`.
- The contract's own address is `contract`.
- Token balances are a map.

A token call that fails panics on the host. A payout that traps does not leave the
record resolved: the host discards the flag write with the rest of the invocation, so
the model returns `Trap` with the ledger unchanged. The methods still write the flag
before the transfer, as the code does, and undo that write on a trap.

## Model

| member | source | states |
|---|---|---|
| `HtlcTypes.Code` | contracts/stellar/src/lib.rs:32-41 | every error has a discriminant in 1..8 |
| `HtlcTypes.CodeInjective` | contracts/stellar/src/lib.rs:32-41 | two errors share a discriminant only if they are the same error |
| `Token.Transfer` | contracts/stellar/src/lib.rs:76-77 | the token transfer succeeds exactly when 0 <= amount <= payer's balance; it then debits the payer and credits the payee by the amount and leaves every other balance alone |
| `EscrowLedger.Create` | contracts/stellar/src/lib.rs:49-107 | `InvalidTimelock` exactly when timelock <= now (equality rejected); `InsufficientBalance` exactly when the timelock is in the future and the sender's balance is below amount; a trap exactly when the amount is negative and otherwise valid. Every failure leaves the ledger unchanged. Success returns hash(order_id) and stores, at that key, the record with every supplied field, both flags false and created_at = now (overwriting any record there). It moves `amount` sender -> contract and leaves clock and address alone |
| `EscrowLedger.Withdraw` | contracts/stellar/src/lib.rs:110-160 | each error holds exactly when all earlier checks pass and its own fails, in the order not found, already withdrawn, already cancelled, hash(secret) != secret_hash, receiver mismatch. No time check is made. When every check passes, the outcome is a trap exactly when the contract cannot pay the amount. Failure changes nothing. Success sets only `withdrawn` on that record and moves `amount` contract -> receiver |
| `EscrowLedger.Cancel` | contracts/stellar/src/lib.rs:163-210 | the same precedence with not found, already withdrawn, already cancelled, now < timelock, sender mismatch. When every check passes, the outcome is a trap exactly when the contract cannot refund the amount. Failure changes nothing. Success sets only `cancelled` and refunds `amount` contract -> sender |
| `EscrowLedger.GetEscrow` | contracts/stellar/src/lib.rs:213-215 | present exactly when the id is stored, and then the stored record |
| `EscrowLedger.VerifySecret` | contracts/stellar/src/lib.rs:218-227 | true exactly when the id is stored and hash(secret) equals its commitment; false for an absent id; flags play no part |
| `EscrowLedger.CanCancel` | contracts/stellar/src/lib.rs:230-237 | true exactly for a stored, unresolved record whose timelock <= now; false for an absent id |
| `EscrowLedger.GenerateSecretHash` | contracts/stellar/src/lib.rs:260-263 | every stored record whose commitment is the generated hash is opened by that secret under verify_secret |
| `Contract.HtlcEscrow.CreateEscrow` | contracts/stellar/src/lib.rs:49-107 | the step-by-step create (guards, transfer, then storage write) returns and leaves exactly what `EscrowLedger.Create` gives, and keeps the object invariant |
| `Contract.HtlcEscrow.Withdraw` | contracts/stellar/src/lib.rs:110-160 | the step-by-step withdraw (guards, flag persisted, then payout; a trapping payout discards the write) equals `EscrowLedger.Withdraw` and keeps the invariant |
| `Contract.HtlcEscrow.Cancel` | contracts/stellar/src/lib.rs:163-210 | the step-by-step cancel (guards, flag persisted, then refund; a trapping refund discards the write) equals `EscrowLedger.Cancel` and keeps the invariant |
| `Lifecycle.CreatePreservesInvariant` | contracts/stellar/src/lib.rs:80-94 | create keeps the invariant: no record has both flags, no stored amount or balance is negative |
| `Lifecycle.WithdrawPreservesInvariant` | contracts/stellar/src/lib.rs:122-149 | withdraw keeps the same invariant |
| `Lifecycle.CancelPreservesInvariant` | contracts/stellar/src/lib.rs:174-199 | cancel keeps the same invariant |
| `Lifecycle.ResolvedIsFinal` | contracts/stellar/src/lib.rs:122-180 | on a resolved record, every withdraw and every cancel fails with the flag already set (`AlreadyWithdrawn` first) and changes nothing |
| `Lifecycle.WithdrawExcludesCancel` | contracts/stellar/src/lib.rs:143-180 | after a successful withdraw, a cancel at any later time by anyone, and a second withdraw, fail with `AlreadyWithdrawn` |
| `Lifecycle.CancelExcludesWithdraw` | contracts/stellar/src/lib.rs:122-195 | after a successful cancel, a withdraw even with the right secret, and a second cancel, fail with `AlreadyCancelled` |
| `Lifecycle.ResolutionIsLocal` | contracts/stellar/src/lib.rs:143-195 | withdraw and cancel leave the record under every other id unchanged |
| `Lifecycle.CanCancelMatchesCancel` | contracts/stellar/src/lib.rs:230-237 | can_cancel holds exactly when a cancel by the record's own sender passes every check; a cancel by anyone else then fails with `UnauthorizedAccess` |
| `Lifecycle.CanCancelPersists` | contracts/stellar/src/lib.rs:233 | once can_cancel holds, it keeps holding as the clock advances |
| `Lifecycle.VerifySecretIgnoresResolution` | contracts/stellar/src/lib.rs:218-227 | withdraw and cancel do not change the answer of verify_secret for any id and secret |
| `Lifecycle.WithdrawNeedsVerifiedSecret` | contracts/stellar/src/lib.rs:130-136 | a successful withdraw was given a secret that verify_secret accepts |
| `Lifecycle.CreateThenGet` | contracts/stellar/src/lib.rs:80-94 | after a successful create, get_escrow on the returned id gives the record with every supplied field, both flags false and created_at = now |
| `Lifecycle.GeneratedCommitmentOpens` | contracts/stellar/src/lib.rs:260-263 | for an escrow created with generate_secret_hash(secret), that secret verifies, and a withdraw with it by the receiver passes every check |
| `Lifecycle.ReusedOrderIdOverwrites` | contracts/stellar/src/lib.rs:65-94 | a create with an order id whose hash is already stored returns the same id and adds no key; it replaces the old record, open or resolved, with a fresh open one |
| `Custody.CreatePreservesSolvency` | contracts/stellar/src/lib.rs:69-94 | a create whose sender is not the contract keeps every token's locked total within the contract's balance |
| `Custody.WithdrawPreservesSolvency` | contracts/stellar/src/lib.rs:143-149 | withdraw keeps the contract solvent |
| `Custody.CancelPreservesSolvency` | contracts/stellar/src/lib.rs:193-199 | cancel keeps the contract solvent |
| `Custody.OpenRecordIsCovered` | contracts/stellar/src/lib.rs:148-149 | in a solvent ledger, an open record's amount is non-negative and at most the contract's balance of its token |
| `Custody.WithdrawSucceedsIff` | contracts/stellar/src/lib.rs:117-149 | in a solvent ledger, withdraw succeeds exactly when the secret verifies, the record is open and the caller is its receiver |
| `Custody.CanCancelIffCancelSucceeds` | contracts/stellar/src/lib.rs:230-237 | in a solvent ledger, can_cancel holds exactly when a cancel by the record's sender succeeds |
| `Custody.SelfFundedCreateOvercommits` | contracts/stellar/src/lib.rs:69-77 | a create whose sender is the contract's own address locks `amount` more while the contract's balance stays the same; from a fully committed balance and a positive amount, the result is not solvent |
| `Trace.AtMostOneResolution` | contracts/stellar/src/lib.rs:117-199 | in any sequence of calls without a create reusing the id, at most one withdraw or cancel of that id succeeds, and none if it was already resolved |
| `Trace.RunPreservesInvariant` | contracts/stellar/src/lib.rs:49-210 | every sequence of calls keeps the invariant, so no record ever has both flags |
| `Trace.ReuseReopens` | contracts/stellar/src/lib.rs:65-94 | a successful create reusing the order id of a resolved escrow makes it open again |
| `Scenarios.WithdrawBeforeDeadline` | contracts/stellar/src/lib.rs:49-160 | amount 100, deadline T+10. At T+5 can_cancel is false and the receiver withdraws with the right secret. 100 moves contract -> receiver, and a later cancel fails with `AlreadyWithdrawn` |
| `Scenarios.RefundAfterDeadline` | contracts/stellar/src/lib.rs:163-210 | amount 100, deadline T+10. At T+11 the sender cancels and both it and the contract are back at their balances from before the create. A later withdraw with the right secret fails with `AlreadyCancelled` |
| `Scenarios.UnfundedCreate` | contracts/stellar/src/lib.rs:69-74 | a sender holding 50 who tries to lock 100 gets `InsufficientBalance`; nothing is stored and nothing moves |
| `Scenarios.DeadlineAtNowRejected` | contracts/stellar/src/lib.rs:59-63 | a timelock equal to the clock is refused with `InvalidTimelock` and nothing changes |

## Left out

- Token contract internals are left out. This covers authorization (`require_auth` of the
  payer inside `transfer`) and `i128` overflow of a credited balance. Balances are
  unbounded integers, and `transfer` fails only on a negative amount or an overdraft.
- keccak256 internals are left out. The hash is an arbitrary function parameter, so
  collision resistance is neither assumed nor used.
- `log!` event emission (lib.rs:97-104, 151-157, 201-208) is left out. It is output only.
- `get_escrows_for_address` (lib.rs:241-251) is left out. It is a stub that always
  returns an empty vector.
- `get_contract_balance` (lib.rs:254-257) is left out. It passes `balance` of the
  contract's address straight through to the token; in the model this is
  `BalanceOf(balances, token, contract)`.
- Soroban storage durability (TTL, archival) and how the host sources the clock are left
  out. Storage is a plain map, and the clock is a field that callers set between calls.
- `order_id` is stored in the record and hashed, and `secret` is hashed, both as their
  UTF-8 bytes. This loses nothing, because `String` equality is byte equality.
- The code never checks `amount > 0`. The model follows the code: a zero amount creates an escrow, and a negative amount passes the
  balance check and then traps in the token transfer.
- The code does not check for an existing record before storing, so a reused
  `order_id` overwrites it (`ReusedOrderIdOverwrites`, `ReuseReopens`). The model keeps
  this behaviour.
- CanCancelMatchesCancel: equates can_cancel with a cancel by the record's sender
  passing all of cancel's own checks. That the refund transfer then also succeeds needs
  the custody property, and is proved separately as `CanCancelIffCancelSucceeds`.
