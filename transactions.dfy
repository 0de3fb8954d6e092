/**
 * The wallet transactions and their execution rules
 * (backend/src/transactions.rs), as functions from the wallets table before
 * a transaction to its result code and the table after it. Each `Execute`
 * runs its checks in the order of the source and, on the first that fails,
 * reports its error with the table unchanged; only then does it apply the
 * storage primitives. The mutable ledger in ledger.dfy is proved to compute
 * exactly these outcomes.
 */
module Transactions {
  import opened Wallets
  import Schema

  type WalletMap = Schema.WalletMap
  type Env = Schema.Env

  type uint8 = x: int | 0 <= x < 256

  /** Error codes emitted by wallet transactions during execution. */
  datatype Error = WalletAlreadyExists | SenderNotFound | ReceiverNotFound | InsufficientCurrencyAmount
  {
    /** `value as u8`: the discriminant of the variant. */
    function Code(): (c: uint8)
      ensures c <= 3
    {
      match this
      case WalletAlreadyExists => 0
      case SenderNotFound => 1
      case ReceiverNotFound => 2
      case InsufficientCurrencyAmount => 3
    }
  }

  /** The bare code reported when sender and receiver are the same wallet. */
  const ERROR_SENDER_SAME_AS_RECEIVER: uint8 := 0

  /** What execution reports: success or a numeric error code. */
  datatype ExecutionResult = Ok | Err(code: uint8)

  /** `From<Error> for ExecutionError`: only the numeric code is kept. */
  function Fail(e: Error): (r: ExecutionResult)
    ensures r.Err? && r.code == e.Code()
  {
    Err(e.Code())
  }

  /** The result of one execution together with the table it leaves. */
  datatype Outcome = Outcome(result: ExecutionResult, wallets: WalletMap)

  /** Transfer `amount` from the author's wallet to `to`. */
  datatype Transfer = Transfer(to: PublicKey, amount: uint64, seed: uint64)
  {
    /** The receiver's balance stays within 64 bits when the transfer goes through. */
    predicate Fits(m: WalletMap, author: PublicKey)
    {
      (author != to && author in m && to in m && amount <= m[author].balance)
      ==> m[to].balance + amount < U64_LIMIT
    }

    function Execute(env: Env, m: WalletMap, author: PublicKey, txHash: Hash): Outcome
      requires Fits(m, author)
    {
      if author == to then Outcome(Err(ERROR_SENDER_SAME_AS_RECEIVER), m)
      else if author !in m then Outcome(Fail(SenderNotFound), m)
      else if to !in m then Outcome(Fail(ReceiverNotFound), m)
      else if m[author].balance < amount then Outcome(Fail(InsufficientCurrencyAmount), m)
      else
        var sender := m[author];
        var receiver := m[to];
        var debited := Schema.DecreaseWalletBalance(env, m, sender, amount, txHash);
        Outcome(Ok, Schema.IncreaseWalletBalance(env, debited, receiver, amount, txHash))
    }
  }

  /** Propose a transfer from `from` to `to` that an approver must accept. */
  datatype TransferMultisign = TransferMultisign(
    from: PublicKey, to: PublicKey, approvers: seq<PublicKey>, amount: uint64, seed: uint64)
  {
    function Execute(env: Env, m: WalletMap, author: PublicKey, txHash: Hash): Outcome
    {
      if from == to then Outcome(Err(ERROR_SENDER_SAME_AS_RECEIVER), m)
      else if author !in approvers then Outcome(Fail(SenderNotFound), m)
      else if from !in m then Outcome(Fail(SenderNotFound), m)
      else if to !in m then Outcome(Fail(ReceiverNotFound), m)
      else if m[from].balance < amount then Outcome(Fail(InsufficientCurrencyAmount), m)
      else
        var sender := AddPendingTx(m[from], txHash);
        var proposed := Schema.AddTxToWallet(m, m[from], txHash);
        Outcome(Ok, Schema.DecreaseWalletPendingBalance(env, proposed, sender, amount))
    }
  }

  /** The amount moved when a proposal is accepted: balance minus pending balance. */
  function Settled(sender: Wallet): (amount: uint64)
    requires sender.pendingBalance <= sender.balance
    ensures sender.pendingBalance + amount == sender.balance
  {
    sender.balance - sender.pendingBalance
  }

  /** Accept the proposal `txHash` pending on the wallet `from`. */
  datatype AcceptMultisign = AcceptMultisign(
    txHash: Hash, from: PublicKey, to: PublicKey, approvers: seq<PublicKey>, seed: uint64)
  {
    /**
     * When the proposal is settled, the pending balance does not exceed the
     * balance and the receiver's balance stays within 64 bits.
     */
    predicate Fits(m: WalletMap, author: PublicKey)
    {
      (from != to && from in m && to in m && txHash in m[from].pendingTxs && author in approvers)
      ==> (m[from].pendingBalance <= m[from].balance
           && m[to].balance + (m[from].balance - m[from].pendingBalance) < U64_LIMIT)
    }

    function Execute(env: Env, m: WalletMap, author: PublicKey): Outcome
      requires Fits(m, author)
    {
      if from == to then Outcome(Err(ERROR_SENDER_SAME_AS_RECEIVER), m)
      else if from !in m then Outcome(Fail(SenderNotFound), m)
      else if to !in m then Outcome(Fail(ReceiverNotFound), m)
      else if txHash !in m[from].pendingTxs then Outcome(Ok, m)
      else if author !in approvers then Outcome(Fail(SenderNotFound), m)
      else
        var receiver := m[to];
        var sender := DeletePendingTx(m[from], txHash);
        var released := Schema.RemoveTxFromWallet(m, m[from], txHash);
        var settled := Settled(sender);
        var debited := Schema.DecreaseWalletBalance(env, released, sender, settled, txHash);
        Outcome(Ok, Schema.IncreaseWalletBalance(env, debited, receiver, settled, txHash))
    }
  }

  /** Issue `amount` of the currency to the author's wallet. */
  datatype Issue = Issue(amount: uint64, seed: uint64)
  {
    /** The author's balance stays within 64 bits. */
    predicate Fits(m: WalletMap, author: PublicKey)
    {
      author in m ==> m[author].balance + amount < U64_LIMIT
    }

    function Execute(env: Env, m: WalletMap, author: PublicKey, txHash: Hash): Outcome
      requires Fits(m, author)
    {
      if author in m then Outcome(Ok, Schema.IncreaseWalletBalance(env, m, m[author], amount, txHash))
      else Outcome(Fail(ReceiverNotFound), m)
    }
  }

  /** Create a wallet for the author with the given name. */
  datatype CreateWallet = CreateWallet(name: string)
  {
    function Execute(env: Env, m: WalletMap, author: PublicKey, txHash: Hash): Outcome
    {
      if author !in m then Outcome(Ok, Schema.CreateWallet(env, m, author, name, txHash))
      else Outcome(Fail(WalletAlreadyExists), m)
    }
  }

  /** The transaction group: one variant per transaction kind. */
  datatype WalletTransactions =
    | TransferTx(transfer: Transfer)
    | TransferMultisignTx(proposal: TransferMultisign)
    | AcceptMultisignTx(acceptance: AcceptMultisign)
    | IssueTx(issue: Issue)
    | CreateWalletTx(creation: CreateWallet)
  {
    predicate Fits(m: WalletMap, author: PublicKey)
    {
      match this
      case TransferTx(t) => t.Fits(m, author)
      case TransferMultisignTx(_) => true
      case AcceptMultisignTx(a) => a.Fits(m, author)
      case IssueTx(i) => i.Fits(m, author)
      case CreateWalletTx(_) => true
    }

    /** Dispatch on the kind; acceptance does not read its own transaction hash. */
    function Execute(env: Env, m: WalletMap, author: PublicKey, txHash: Hash): Outcome
      requires Fits(m, author)
    {
      match this
      case TransferTx(t) => t.Execute(env, m, author, txHash)
      case TransferMultisignTx(p) => p.Execute(env, m, author, txHash)
      case AcceptMultisignTx(a) => a.Execute(env, m, author)
      case IssueTx(i) => i.Execute(env, m, author, txHash)
      case CreateWalletTx(c) => c.Execute(env, m, author, txHash)
    }

    /** The amount a successful execution adds to the sum of all balances. */
    function Minted(): nat
    {
      if IssueTx? then issue.amount else 0
    }
  }

  /** A transaction as delivered for execution: its author, its hash and its body. */
  datatype Signed = Signed(author: PublicKey, txHash: Hash, tx: WalletTransactions)

  /** Every transaction in the sequence fits the table it is applied to. */
  predicate RunFits(env: Env, m: WalletMap, txs: seq<Signed>)
    decreases |txs|
  {
    txs == [] ||
    (txs[0].tx.Fits(m, txs[0].author)
     && RunFits(env, txs[0].tx.Execute(env, m, txs[0].author, txs[0].txHash).wallets, txs[1..]))
  }

  /** The table after applying the transactions one at a time, in order. */
  function Run(env: Env, m: WalletMap, txs: seq<Signed>): WalletMap
    requires RunFits(env, m, txs)
    decreases |txs|
  {
    if txs == [] then m
    else Run(env, txs[0].tx.Execute(env, m, txs[0].author, txs[0].txHash).wallets, txs[1..])
  }

  /** The sum of the amounts issued by the successful transactions of the sequence. */
  function Issued(env: Env, m: WalletMap, txs: seq<Signed>): nat
    requires RunFits(env, m, txs)
    decreases |txs|
  {
    if txs == [] then 0
    else
      var o := txs[0].tx.Execute(env, m, txs[0].author, txs[0].txHash);
      (if o.result == Ok then txs[0].tx.Minted() else 0) + Issued(env, o.wallets, txs[1..])
  }
}
