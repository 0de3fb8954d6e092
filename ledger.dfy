/**
 * The ledger as the transactions see it: a `Schema` opened over the storage
 * fork, holding the wallets table and updated in place, one primitive at a
 * time. Each `Execute…` method follows its `execute` body in
 * backend/src/transactions.rs (the checks with early returns, then the
 * primitive calls, threading the updated sender record) and is proved to
 * reach exactly the outcome that the matching `Execute` function in
 * transactions.dfy prescribes.
 */
module Ledgers {
  import opened Wallets
  import Schema
  import opened Transactions

  class Ledger {
    /** What the storage layer computes that the model leaves abstract. */
    const env: Env
    /** The wallets table. */
    var wallets: WalletMap

    ghost predicate Valid()
      reads this
    {
      Schema.KeysMatch(wallets)
    }

    constructor (env: Env)
      ensures Valid() && this.env == env && wallets == map[]
    {
      this.env := env;
      wallets := map[];
    }

    method IncreaseWalletBalance(w: Wallet, amount: uint64, txHash: Hash)
      requires Valid() && w.balance + amount < U64_LIMIT
      modifies this
      ensures Valid()
      ensures wallets == Schema.IncreaseWalletBalance(env, old(wallets), w, amount, txHash)
    {
      var updated := SetBalance(w, w.balance + amount, env.historyHash(w, txHash));
      wallets := wallets[updated.pubKey := updated];
    }

    method DecreaseWalletBalance(w: Wallet, amount: uint64, txHash: Hash)
      requires Valid() && amount <= w.balance
      modifies this
      ensures Valid()
      ensures wallets == Schema.DecreaseWalletBalance(env, old(wallets), w, amount, txHash)
    {
      var updated := SetBalance(w, w.balance - amount, env.historyHash(w, txHash));
      wallets := wallets[updated.pubKey := updated];
    }

    method AddTxToWallet(w: Wallet, txHash: Hash) returns (updated: Wallet)
      requires Valid()
      modifies this
      ensures Valid()
      ensures updated == AddPendingTx(w, txHash)
      ensures wallets == Schema.AddTxToWallet(old(wallets), w, txHash)
    {
      updated := AddPendingTx(w, txHash);
      wallets := wallets[updated.pubKey := updated];
    }

    method RemoveTxFromWallet(w: Wallet, txHash: Hash) returns (updated: Wallet)
      requires Valid()
      modifies this
      ensures Valid()
      ensures updated == DeletePendingTx(w, txHash)
      ensures wallets == Schema.RemoveTxFromWallet(old(wallets), w, txHash)
    {
      updated := DeletePendingTxByPosition(w, txHash);
      wallets := wallets[updated.pubKey := updated];
    }

    method DecreaseWalletPendingBalance(w: Wallet, amount: uint64)
      requires Valid()
      modifies this
      ensures Valid()
      ensures wallets == Schema.DecreaseWalletPendingBalance(env, old(wallets), w, amount)
    {
      var updated := SetPendingBalance(w, env.pendingRule(w, amount));
      wallets := wallets[updated.pubKey := updated];
    }

    method CreateWallet(key: PublicKey, name: string, txHash: Hash)
      requires Valid()
      modifies this
      ensures Valid()
      ensures wallets == Schema.CreateWallet(env, old(wallets), key, name, txHash)
    {
      var blank := Schema.Blank(env, key, name);
      var created := SetBalance(blank, 0, env.historyHash(blank, txHash));
      wallets := wallets[key := created];
    }

    method ExecuteTransfer(author: PublicKey, txHash: Hash, tx: Transfer) returns (r: ExecutionResult)
      requires Valid() && tx.Fits(wallets, author)
      modifies this
      ensures Valid()
      ensures Outcome(r, wallets) == tx.Execute(env, old(wallets), author, txHash)
    {
      var from := author;
      if from == tx.to {
        return Err(ERROR_SENDER_SAME_AS_RECEIVER);
      }
      if from !in wallets {
        return Fail(SenderNotFound);
      }
      var sender := wallets[from];
      if tx.to !in wallets {
        return Fail(ReceiverNotFound);
      }
      var receiver := wallets[tx.to];
      if sender.balance < tx.amount {
        return Fail(InsufficientCurrencyAmount);
      }
      DecreaseWalletBalance(sender, tx.amount, txHash);
      IncreaseWalletBalance(receiver, tx.amount, txHash);
      return Ok;
    }

    method ExecuteTransferMultisign(author: PublicKey, txHash: Hash, tx: TransferMultisign)
      returns (r: ExecutionResult)
      requires Valid()
      modifies this
      ensures Valid()
      ensures Outcome(r, wallets) == tx.Execute(env, old(wallets), author, txHash)
    {
      if tx.from == tx.to {
        return Err(ERROR_SENDER_SAME_AS_RECEIVER);
      }
      var approver := Position(tx.approvers, author);
      if approver.None? {
        return Fail(SenderNotFound);
      }
      if tx.from !in wallets {
        return Fail(SenderNotFound);
      }
      var sender := wallets[tx.from];
      if tx.to !in wallets {
        return Fail(ReceiverNotFound);
      }
      if sender.balance < tx.amount {
        return Fail(InsufficientCurrencyAmount);
      }
      sender := AddTxToWallet(sender, txHash);
      DecreaseWalletPendingBalance(sender, tx.amount);
      return Ok;
    }

    /**
     * The success path of an acceptance: release the proposal, then move the
     * sender's balance above its pending balance to the receiver.
     */
    method Settle(sender: Wallet, receiver: Wallet, proposal: Hash)
      requires Valid() && sender.pendingBalance <= sender.balance
      requires receiver.balance + (sender.balance - sender.pendingBalance) < U64_LIMIT
      modifies this
      ensures Valid()
      ensures var released := DeletePendingTx(sender, proposal);
        var settled := Settled(released);
        var debited := Schema.DecreaseWalletBalance(
          env, Schema.RemoveTxFromWallet(old(wallets), sender, proposal), released, settled, proposal);
        wallets == Schema.IncreaseWalletBalance(env, debited, receiver, settled, proposal)
    {
      var released := RemoveTxFromWallet(sender, proposal);
      var newAmount := released.balance - released.pendingBalance;
      DecreaseWalletBalance(released, newAmount, proposal);
      IncreaseWalletBalance(receiver, newAmount, proposal);
    }

    /** Acceptance never reads its own transaction hash: the history records the proposal's. */
    method ExecuteAcceptMultisign(author: PublicKey, tx: AcceptMultisign) returns (r: ExecutionResult)
      requires Valid() && tx.Fits(wallets, author)
      modifies this
      ensures Valid()
      ensures Outcome(r, wallets) == tx.Execute(env, old(wallets), author)
    {
      if tx.from == tx.to {
        return Err(ERROR_SENDER_SAME_AS_RECEIVER);
      }
      if tx.from !in wallets {
        return Fail(SenderNotFound);
      }
      var sender := wallets[tx.from];
      if tx.to !in wallets {
        return Fail(ReceiverNotFound);
      }
      var receiver := wallets[tx.to];
      var pendingTxs := sender.pendingTxs;
      var found := Position(pendingTxs, tx.txHash);
      if found.Some? {
        var approver := Position(tx.approvers, author);
        if approver.Some? {
          Settle(sender, receiver, tx.txHash);
          return Ok;
        } else {
          return Fail(SenderNotFound);
        }
      }
      return Ok;
    }

    method ExecuteIssue(author: PublicKey, txHash: Hash, tx: Issue) returns (r: ExecutionResult)
      requires Valid() && tx.Fits(wallets, author)
      modifies this
      ensures Valid()
      ensures Outcome(r, wallets) == tx.Execute(env, old(wallets), author, txHash)
    {
      if author in wallets {
        var wallet := wallets[author];
        IncreaseWalletBalance(wallet, tx.amount, txHash);
        return Ok;
      } else {
        return Fail(ReceiverNotFound);
      }
    }

    method ExecuteCreateWallet(author: PublicKey, txHash: Hash, tx: CreateWallet) returns (r: ExecutionResult)
      requires Valid()
      modifies this
      ensures Valid()
      ensures Outcome(r, wallets) == tx.Execute(env, old(wallets), author, txHash)
    {
      if author !in wallets {
        CreateWallet(author, tx.name, txHash);
        return Ok;
      } else {
        return Fail(WalletAlreadyExists);
      }
    }
  }
}
