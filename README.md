# Wallet ledger of the cryptocurrency service

A Dafny model of the business logic of an Exonum cryptocurrency service:
the wallet record with its copy-on-write setters, and the five wallet
transactions (`Transfer`, `TransferMultisign`, `AcceptMultisign`, `Issue`,
`CreateWallet`) that check their preconditions against the wallets table
and then update it. A multisignature transfer is two transactions: a
proposal (`TransferMultisign`) that puts its own hash on the sender's list
of pending transfers and sets the sender's pending balance, and an
acceptance (`AcceptMultisign`) by an approver that removes the hash again
and moves the sender's balance above its pending balance to the receiver.

Files and modules:

- `wallet.dfy`, module `Wallets`: the `Wallet` datatype, `New` and the
  setters as functions; `delete_pending_tx` also as the method
  `DeletePendingTxByPosition`, which searches with the loop `Position` and
  cuts the element out, proved equal to the function `DeletePendingTx`.
- `schema.dfy`, module `Schema`: the storage primitives the transactions
  call, as functions on the wallets table, and `Total`, the sum of all
  balances, with the lemmas that relate each primitive to it.
- `transactions.dfy`, module `Transactions`: the error codes, one datatype
  per transaction whose `Execute` function gives the result code and the
  table after the transaction, and the transaction group
  `WalletTransactions` with its dispatching `Execute`. `Run` applies a
  sequence of transactions one at a time.
- `ledger.dfy`, module `Ledgers`: the class `Ledger`, holding the wallets
  table as a `map` updated in place. It has one method per storage primitive
  and one `Execute…` method per transaction. Each method follows its
  `execute` body: the checks with early returns, the searches as loops,
  then the primitive calls, passing the updated sender record along. Each
  is proved to reach exactly the outcome of the matching `Execute` function.
- `properties.dfy`, module `TransactionProperties`: what the rules
  guarantee, as lemmas about the `Execute` functions.

Modelling assumptions:

- `PublicKey` and `Hash` are opaque types compared only for equality.
- The storage primitives live in `backend/src/schema.rs`, which is not part of
  this model. Each one is defined here from the visible wallet setters, and
  the new record is written back under its own key.
  - `increase_wallet_balance` and `decrease_wallet_balance` are `set_balance`
    with the balance plus or minus the amount. So each one adds one history
    entry.
  - `add_tx_to_wallet` is `add_pending_tx`.
  - `remove_tx_from_wallet` is `delete_pending_tx`.
  - `decrease_wallet_pending_balance` is `set_pending_balance` with a new
    value `env.pendingRule(wallet, amount)`. The rule sees the whole sender
    record, with the proposal hash already appended. The name says
    "decrease", but the call is made when a transfer is proposed, so the
    rule is a parameter. The model does not fix whether the pending balance
    goes up or down. Two readings are named in `properties.dfy`:
    `AddRule` (the old pending balance plus the amount) and `SubtractRule`
    (the balance less the amount).
  - `create_wallet` builds a blank record with `new`: balance 0, pending
    balance 0, no pending transfers, empty history. It then records the
    creating transaction with `set_balance(0, …)`, so a new wallet has a
    history length of 1.
- The new history hash is `env.historyHash(old record, transaction hash)`,
  a function the model leaves uninterpreted. The hash of an empty history
  is `env.emptyHistory`.
- `Ledger.Valid()` says that every record is stored under its own public
  key. Every method keeps this true.
- The design description of the service and the code differ on seven
  points. The model follows the code in each case:
  - The proposal checks that the author is an approver before it looks up
    the wallets (`backend/src/transactions.rs:272`).
  - An acceptance whose hash is not pending on the sender succeeds and
    changes nothing (`backend/src/transactions.rs:322`). The description
    calls this `SenderNotFound`.
  - An acceptance records the hash of the proposal in the histories, not
    its own hash. It never reads its own hash (`backend/src/transactions.rs:309-314`).
  - The description gives a sender that is also the receiver its own
    error, distinct from the others. The code reports the bare code
    `ERROR_SENDER_SAME_AS_RECEIVER`, which is 0
    (`backend/src/transactions.rs:31`, returned at lines 239, 269 and 300).
    That is also the code of `WalletAlreadyExists`, so the numeric code
    alone does not separate them (`SameAsReceiverCollides`). The code does
    separate them: `WalletAlreadyExists` carries the description "Wallet
    already exists" (`backend/src/transactions.rs:62-66`), the same-sender
    failure carries none, and the two come from different transaction
    kinds. The model keeps the code alone.
  - The description gives a new wallet a history length of 0. The model's
    `create_wallet` records the creating transaction with `set_balance`,
    so a new wallet has a history length of 1 (`CreateWalletEffect`).
    The code of `create_wallet` is not part of this model; see the
    modelling assumption above.
  - The description has a proposal accepted by an approver authorized on
    that proposal. The code checks the author against the acceptance's own
    `approvers` (`backend/src/transactions.rs:310`) and pays the
    acceptance's own `to` (lines 297 and 314). The proposal's approvers are
    checked once, against its author (line 272), and are never stored. So
    any author with a wallet can settle any pending proposal to itself by
    naming itself as the only approver (`AnyAuthorCanSettle`).
  - The description has every primitive add a history entry, the
    reservation and the release of a proposal included. In the model,
    neither adds one: a proposal changes only the pending list and pending
    balance (`TransferMultisignSuccess`), and the release at acceptance
    only removes the hash, so each wallet gets just the one entry of the
    debit or credit (`AcceptMultisignSuccess`). The call at
    `backend/src/transactions.rs:283` passes no transaction hash for the
    history to record.
- When a proposal is accepted, the sender's balance becomes its pending
  balance, and the acceptance leaves the pending balance as it was
  (`AcceptMultisignSuccess`). Under `AddRule`, nothing ever lowers the
  pending balance, so a second proposal from the same sender settles
  against the old pending balance.
- Under `AddRule`, nothing in the proposal keeps the pending balance at or
  below the balance: two proposals of 60 from a balance of 100 both go
  through (`PendingCanExceedBalance`). This is why an acceptance that
  settles requires it.
- Under `SubtractRule`, a proposal leaves at most the balance pending, and
  an acceptance that directly follows it moves exactly the proposed amount
  (`ProposeThenAcceptUnderSubtractRule`). A transaction in between undoes
  this. A credit changes what is settled: 50 issued after a proposal of 10
  from 100 makes the acceptance move 60 (`CreditBeforeAcceptance`). A
  debit that comes later can leave the pending balance above the balance
  under either reading, since a transfer checks only the balance: 50
  transferred out leaves 50 against 90 pending, and the acceptance no
  longer fits (`DebitBeforeAcceptance`).

## Model

| member | source | states |
|---|---|---|
| `Wallets.New` | backend/src/wallet.rs:46-65 | every field of the new wallet is the argument given for it; the pending list is the given list |
| `Wallets.SetBalance` | backend/src/wallet.rs:67-77 | the balance and history hash are the given ones, the history length grows by exactly one, key, name, pending balance and pending list are kept |
| `Wallets.SetPendingBalance` | backend/src/wallet.rs:79-89 | only the pending balance changes; balance, pending list, history length and hash are kept |
| `Wallets.AddPendingTx` | backend/src/wallet.rs:91-103 | the hash is appended at the end (length plus one, old list as prefix, no duplicate check); every other field is kept |
| `Wallets.FirstRemoved` | backend/src/wallet.rs:107-108 | removing the first match takes exactly one copy of the hash out of the multiset of the list; an absent hash leaves the list as it is |
| `Wallets.DeletePendingTx` | backend/src/wallet.rs:105-119 | the pending list loses its first matching hash; an absent hash returns the wallet unchanged; every other field is kept |
| `Wallets.Position` | backend/src/wallet.rs:107 | returns nothing exactly when the target is absent, otherwise the index of its first occurrence |
| `Wallets.DeletePendingTxByPosition` | backend/src/wallet.rs:105-119 | searching for the position and removing that element gives exactly `DeletePendingTx` |
| `Wallets.FirstRemovedAt` | backend/src/wallet.rs:107-108 | removing the first occurrence is cutting the list at the index of the first match |
| `Wallets.FirstRemovedAppended` | backend/src/wallet.rs:91-119 | deleting a hash that was just pushed onto a list not containing it gives back the list |
| `Wallets.DeleteAfterAdd` | backend/src/wallet.rs:91-119 | round trip: `delete_pending_tx(add_pending_tx(w, h), h) == w` when `h` is not pending on `w` |
| `Schema.Put` | backend/src/transactions.rs:250-251 | writing a record under its own key changes only that entry and keeps every key matching its record |
| `Schema.IncreaseTotal` | backend/src/transactions.rs:251 | crediting a stored wallet raises the sum of all balances by exactly the amount |
| `Schema.DecreaseTotal` | backend/src/transactions.rs:250 | debiting a stored wallet lowers the sum of all balances by exactly the amount |
| `Schema.CreateTotal` | backend/src/transactions.rs:352 | creating a wallet under a new key leaves the sum of all balances unchanged |
| `Transactions.Error.Code` | backend/src/transactions.rs:36-60 | every error code is a number from 0 to 3 |
| `Transactions.Fail` | backend/src/transactions.rs:62-66 | an error is reported as a failure carrying its numeric code |
| `Transactions.Settled` | backend/src/transactions.rs:312 | the settled amount is what the balance holds above the pending balance |
| `TransactionProperties.ErrorCodes` | backend/src/transactions.rs:36-60 | `WalletAlreadyExists`=0, `SenderNotFound`=1, `ReceiverNotFound`=2, `InsufficientCurrencyAmount`=3, and two errors share a code only if they are the same error |
| `TransactionProperties.SameAsReceiverCollides` | backend/src/transactions.rs:31 | with the description left out, the same-sender-and-receiver failure is the same value as `WalletAlreadyExists`: both report code 0 |
| `TransactionProperties.TransferResult` | backend/src/transactions.rs:238-248 | each result code holds exactly when the checks before it pass and its own fails, in the order author = receiver, sender missing, receiver missing, balance too low; success exactly when all pass; every failure leaves the table unchanged |
| `TransactionProperties.TransferSuccess` | backend/src/transactions.rs:250-253 | the sender loses and the receiver gains `amount`, each records the transaction hash as one new history entry, pending state is kept, no other wallet changes |
| `TransactionProperties.TransferConserves` | backend/src/transactions.rs:246-251 | a transfer, successful or not, keeps the sum of all balances |
| `TransactionProperties.TransferMultisignResult` | backend/src/transactions.rs:268-280 | check order: sender = receiver, then author not an approver (reported as `SenderNotFound`), sender missing, receiver missing, balance too low; the author need not be the sender; failures change nothing |
| `TransactionProperties.TransferMultisignSuccess` | backend/src/transactions.rs:282-283 | the proposal hash is appended to the sender's pending list and the pending balance is the pending rule applied to that updated record and the amount; balance and history are unchanged; no other wallet, the receiver included, changes |
| `TransactionProperties.TransferMultisignConserves` | backend/src/transactions.rs:282-283 | a proposal keeps the sum of all balances |
| `TransactionProperties.AcceptMultisignResult` | backend/src/transactions.rs:299-322 | check order: sender = receiver, sender missing, receiver missing; a hash not pending is success with no change, whoever the author is; a pending hash with an author outside the approvers is `SenderNotFound` with no change |
| `TransactionProperties.AcceptMultisignSuccess` | backend/src/transactions.rs:311-315 | the first matching hash is removed, the sender's balance becomes its pending balance, the receiver gains balance minus pending balance, the pending balance is kept, the receiver's pending list and pending balance are kept, both histories grow by one with the proposal hash |
| `TransactionProperties.AcceptMultisignConserves` | backend/src/transactions.rs:309-315 | an acceptance keeps the sum of all balances |
| `TransactionProperties.IssueEffect` | backend/src/transactions.rs:333-339 | `ReceiverNotFound` with no change when the author has no wallet; otherwise only the author's balance grows by `amount`, its history grows by one entry hashed with the transaction hash, and its pending fields are kept; the sum grows by exactly what was issued |
| `TransactionProperties.CreateWalletEffect` | backend/src/transactions.rs:350-356 | `WalletAlreadyExists` with no change when the author has a wallet; otherwise one new wallet under the author's key with the given name, zero balances, no pending transfers, history length 1 and the history hash of the blank record with the transaction hash; nothing else changes and the sum is kept |
| `TransactionProperties.CreateWalletTwice` | backend/src/transactions.rs:350-356 | creating the same wallet again is refused with `WalletAlreadyExists` and changes nothing |
| `TransactionProperties.ExecuteInvariants` | backend/src/transactions.rs:139-152 | for every transaction: keys keep matching their records, a failure changes nothing, no wallet is removed or changes key or name, no history shrinks, the sum changes only by a successful issue |
| `TransactionProperties.RunConserves` | backend/src/transactions.rs:139-152 | over any ordered sequence of transactions, the sum of all balances grows by exactly the amounts successfully issued |
| `TransactionProperties.ProposeThenAccept` | backend/src/transactions.rs:282-315 | proposing and then accepting the proposal returns the sender's pending list to what it was; the sender keeps the pending balance the rule set on the proposed record and the receiver gains the rest |
| `TransactionProperties.ProposeThenAcceptUnderSubtractRule` | backend/src/transactions.rs:282-315 | when the rule sets the pending balance to the balance less the amount, a proposal leaves the pending balance at most the balance, its acceptance goes through, and it moves exactly the proposed amount from sender to receiver |
| `TransactionProperties.AnyAuthorCanSettle` | backend/src/transactions.rs:297-315 | an acceptance by any author with a wallet, naming itself as receiver and only approver, settles a proposal pending on another wallet and pays the author the balance above the pending balance |
| `TransactionProperties.CreditBeforeAcceptance` | backend/src/transactions.rs:309-315 | under `SubtractRule`, after a proposal of 10 from 100 and an issue of 50, the acceptance fits and moves 60, not 10 |
| `TransactionProperties.DebitBeforeAcceptance` | backend/src/transactions.rs:238-251 | under `SubtractRule`, after a proposal of 10 from 100, a transfer of 50 out goes through and leaves balance 50 against pending 90, so the acceptance no longer fits |
| `TransactionProperties.ScenarioTransfer` | backend/src/transactions.rs:238-253 | two wallets, 100 issued, 30 transferred: balances 70 and 30; a further transfer of 150 is refused with `InsufficientCurrencyAmount` and changes nothing |
| `TransactionProperties.ScenarioMultisign` | backend/src/transactions.rs:268-315 | under `AddRule`: a proposal of 40 from 100 leaves the balance at 100 and the pending balance at 40; accepting it moves 60, leaves 40 and keeps the pending balance at 40 |
| `TransactionProperties.PendingCanExceedBalance` | backend/src/transactions.rs:278-283 | under `AddRule`, two proposals of 60 from a balance of 100 both succeed and leave 120 pending against a balance of 100 |
| `Ledgers.Ledger.IncreaseWalletBalance` | backend/src/transactions.rs:251 | the table becomes `Schema.IncreaseWalletBalance` of the old one |
| `Ledgers.Ledger.DecreaseWalletBalance` | backend/src/transactions.rs:250 | the table becomes `Schema.DecreaseWalletBalance` of the old one |
| `Ledgers.Ledger.AddTxToWallet` | backend/src/transactions.rs:282 | returns the wallet with the hash appended and stores it |
| `Ledgers.Ledger.RemoveTxFromWallet` | backend/src/transactions.rs:311 | returns the wallet without the first matching hash and stores it |
| `Ledgers.Ledger.DecreaseWalletPendingBalance` | backend/src/transactions.rs:283 | the table becomes `Schema.DecreaseWalletPendingBalance` of the old one |
| `Ledgers.Ledger.CreateWallet` | backend/src/transactions.rs:352 | the table becomes `Schema.CreateWallet` of the old one |
| `Ledgers.Ledger.Settle` | backend/src/transactions.rs:311-314 | release the proposal, debit the settled amount from the updated sender, credit it to the receiver |
| `Ledgers.Ledger.ExecuteTransfer` | backend/src/transactions.rs:228-255 | result code and new table are exactly those of `Transfer.Execute` |
| `Ledgers.Ledger.ExecuteTransferMultisign` | backend/src/transactions.rs:257-287 | result code and new table are exactly those of `TransferMultisign.Execute` |
| `Ledgers.Ledger.ExecuteAcceptMultisign` | backend/src/transactions.rs:289-324 | result code and new table are exactly those of `AcceptMultisign.Execute` |
| `Ledgers.Ledger.ExecuteIssue` | backend/src/transactions.rs:326-341 | result code and new table are exactly those of `Issue.Execute` |
| `Ledgers.Ledger.ExecuteCreateWallet` | backend/src/transactions.rs:343-358 | result code and new table are exactly those of `CreateWallet.Execute` |

## Left out

- The `sign` constructors of the transactions: they sign messages with a secret key, which is foreign cryptography.
- The protobuf and serde derives and the `proto` module: generated serialisation code.
- The description string of an execution error: only the numeric code is modelled.
- How the history hash is computed (a Merkle root over the wallet's history list in the storage layer): it is the parameter `env.historyHash`. The history list itself is not modelled, only its length and hash.
- The direction of `decrease_wallet_pending_balance`: its code is not part of this model, so it is the parameter `env.pendingRule`.
- The storage fork, atomic commit and the consensus order of transactions. The ledger is one map changed by one method call at a time, and `Run` applies transactions in a given order.
- `CRYPTOCURRENCY_SERVICE_ID` and the routing of messages to the service.
- Ledgers.Ledger.ExecuteTransfer: requires (`Transfer.Fits`) that the receiver's balance plus the amount stays below 2^64 when the transfer goes through; what the code does on an overflow is not modelled.
- Ledgers.Ledger.ExecuteIssue: requires (`Issue.Fits`) that the author's balance plus the amount stays below 2^64; what the code does on an overflow is not modelled.
- Ledgers.Ledger.ExecuteAcceptMultisign: requires (`AcceptMultisign.Fits`), on the settling path, that the pending balance does not exceed the balance and that the receiver's new balance stays below 2^64. The code does not guarantee either, and an underflow or overflow is not modelled.
- Wallets.SetBalance: the history length is an unbounded `nat`, so its 64-bit wrap-around is not modelled. One increment per transaction makes it out of reach.
- A panic inside `execute` and the rollback that follows it.
