/**
 * What the transaction rules guarantee: the order in which the checks
 * report their errors, that a rejected transaction changes nothing, the
 * exact effect of each successful transaction, conservation of the sum of
 * all balances, and the life of a multisignature proposal from its
 * creation to its acceptance.
 */
module TransactionProperties {
  import opened Wallets
  import Schema
  import opened Transactions

  /** The numbers of the error codes: 0 to 3, one per variant. */
  lemma ErrorCodes(a: Error, b: Error)
    ensures WalletAlreadyExists.Code() == 0 && SenderNotFound.Code() == 1
    ensures ReceiverNotFound.Code() == 2 && InsufficientCurrencyAmount.Code() == 3
    ensures a.Code() == b.Code() <==> a == b
  {
  }

  /**
   * The same-sender failure and `WalletAlreadyExists` carry the same numeric
   * code; only the description, which the model leaves out, separates them.
   */
  lemma SameAsReceiverCollides()
    ensures Err(ERROR_SENDER_SAME_AS_RECEIVER) == Fail(WalletAlreadyExists)
  {
  }

  /** Everything in `m` other than the record under `k` is also in `r`, unchanged. */
  predicate OthersUnchanged(m: WalletMap, r: WalletMap, k: PublicKey)
  {
    forall j :: j in m && j != k ==> j in r && r[j] == m[j]
  }

  /**
   * The reading of the pending rule under which proposals accumulate: the
   * new pending balance is the old one plus the amount.
   */
  ghost predicate AddRule(env: Env)
  {
    forall w: Wallet, a: uint64 :: w.pendingBalance + a < U64_LIMIT ==> env.pendingRule(w, a) == w.pendingBalance + a
  }

  /**
   * The reading of the pending rule under which the sender keeps back what
   * the proposal does not move: the new pending balance is the balance less
   * the amount.
   */
  ghost predicate SubtractRule(env: Env)
  {
    forall w: Wallet, a: uint64 :: a <= w.balance ==> env.pendingRule(w, a) == w.balance - a
  }

  // ---------------------------------------------------------------- Transfer

  /** Which result a transfer reports, check by check, and that an error changes nothing. */
  lemma TransferResult(env: Env, m: WalletMap, author: PublicKey, txHash: Hash, tx: Transfer)
    requires tx.Fits(m, author)
    ensures var o := tx.Execute(env, m, author, txHash);
      && (o.result == Err(ERROR_SENDER_SAME_AS_RECEIVER) <==> author == tx.to)
      && (o.result == Fail(SenderNotFound) <==> author != tx.to && author !in m)
      && (o.result == Fail(ReceiverNotFound) <==> author != tx.to && author in m && tx.to !in m)
      && (o.result == Fail(InsufficientCurrencyAmount)
          <==> author != tx.to && author in m && tx.to in m && m[author].balance < tx.amount)
      && (o.result == Ok
          <==> author != tx.to && author in m && tx.to in m && tx.amount <= m[author].balance)
      && (o.result.Err? ==> o.wallets == m)
  {
  }

  /** A transfer that goes through moves `amount` and records one history entry per wallet. */
  lemma TransferSuccess(env: Env, m: WalletMap, author: PublicKey, txHash: Hash, tx: Transfer)
    requires Schema.KeysMatch(m) && tx.Fits(m, author)
    requires tx.Execute(env, m, author, txHash).result == Ok
    ensures var r := tx.Execute(env, m, author, txHash).wallets;
      && r.Keys == m.Keys
      && r[author].balance == m[author].balance - tx.amount
      && r[tx.to].balance == m[tx.to].balance + tx.amount
      && r[author].historyLen == m[author].historyLen + 1
      && r[tx.to].historyLen == m[tx.to].historyLen + 1
      && r[author].historyHash == env.historyHash(m[author], txHash)
      && r[tx.to].historyHash == env.historyHash(m[tx.to], txHash)
      && r[author].pendingBalance == m[author].pendingBalance
      && r[author].pendingTxs == m[author].pendingTxs
      && r[tx.to].pendingBalance == m[tx.to].pendingBalance
      && r[tx.to].pendingTxs == m[tx.to].pendingTxs
      && forall k :: k in m && k != author && k != tx.to ==> r[k] == m[k]
  {
  }

  /** A transfer never changes the sum of all balances. */
  lemma TransferConserves(env: Env, m: WalletMap, author: PublicKey, txHash: Hash, tx: Transfer)
    requires Schema.KeysMatch(m) && tx.Fits(m, author)
    ensures Schema.Total(tx.Execute(env, m, author, txHash).wallets) == Schema.Total(m)
  {
    if tx.Execute(env, m, author, txHash).result == Ok {
      var debited := Schema.DecreaseWalletBalance(env, m, m[author], tx.amount, txHash);
      Schema.DecreaseTotal(env, m, m[author], tx.amount, txHash);
      Schema.IncreaseTotal(env, debited, m[tx.to], tx.amount, txHash);
    }
  }

  // ------------------------------------------------------- TransferMultisign

  /**
   * Which result a proposal reports: the author must be an approver, which is
   * checked before the sender is looked up and reported as `SenderNotFound`.
   */
  lemma TransferMultisignResult(env: Env, m: WalletMap, author: PublicKey, txHash: Hash, tx: TransferMultisign)
    ensures var o := tx.Execute(env, m, author, txHash);
      && (o.result == Err(ERROR_SENDER_SAME_AS_RECEIVER) <==> tx.from == tx.to)
      && (o.result == Fail(SenderNotFound)
          <==> tx.from != tx.to && (author !in tx.approvers || tx.from !in m))
      && (o.result == Fail(ReceiverNotFound)
          <==> tx.from != tx.to && author in tx.approvers && tx.from in m && tx.to !in m)
      && (o.result == Fail(InsufficientCurrencyAmount)
          <==> tx.from != tx.to && author in tx.approvers && tx.from in m && tx.to in m
               && m[tx.from].balance < tx.amount)
      && (o.result == Ok
          <==> tx.from != tx.to && author in tx.approvers && tx.from in m && tx.to in m
               && tx.amount <= m[tx.from].balance)
      && (o.result.Err? ==> o.wallets == m)
  {
  }

  /**
   * A proposal that goes through appends its hash to the sender's pending
   * list and sets the sender's pending balance by the pending rule, applied
   * to the sender's record with the hash already appended; no balance and
   * no other wallet (the receiver included) changes.
   */
  lemma TransferMultisignSuccess(env: Env, m: WalletMap, author: PublicKey, txHash: Hash, tx: TransferMultisign)
    requires Schema.KeysMatch(m)
    requires tx.Execute(env, m, author, txHash).result == Ok
    ensures var r := tx.Execute(env, m, author, txHash).wallets;
      && r.Keys == m.Keys
      && r[tx.from].pendingTxs == m[tx.from].pendingTxs + [txHash]
      && r[tx.from].pendingBalance == env.pendingRule(AddPendingTx(m[tx.from], txHash), tx.amount)
      && r[tx.from].balance == m[tx.from].balance
      && r[tx.from].historyLen == m[tx.from].historyLen
      && r[tx.from].historyHash == m[tx.from].historyHash
      && SameIdentity(r[tx.from], m[tx.from])
      && OthersUnchanged(m, r, tx.from)
  {
  }

  /** A proposal never changes the sum of all balances. */
  lemma TransferMultisignConserves(env: Env, m: WalletMap, author: PublicKey, txHash: Hash, tx: TransferMultisign)
    requires Schema.KeysMatch(m)
    ensures Schema.Total(tx.Execute(env, m, author, txHash).wallets) == Schema.Total(m)
  {
    if tx.Execute(env, m, author, txHash).result == Ok {
      var sender := AddPendingTx(m[tx.from], txHash);
      var proposed := Schema.AddTxToWallet(m, m[tx.from], txHash);
      Schema.PutSameBalanceTotal(m, sender);
      Schema.PutSameBalanceTotal(proposed, SetPendingBalance(sender, env.pendingRule(sender, tx.amount)));
    }
  }

  // -------------------------------------------------------- AcceptMultisign

  /**
   * Which result an acceptance reports. An unknown proposal hash is a
   * success that changes nothing, whoever the author is; a known one with an
   * author outside the approvers is `SenderNotFound`.
   */
  lemma AcceptMultisignResult(env: Env, m: WalletMap, author: PublicKey, tx: AcceptMultisign)
    requires tx.Fits(m, author)
    ensures var o := tx.Execute(env, m, author);
      && (o.result == Err(ERROR_SENDER_SAME_AS_RECEIVER) <==> tx.from == tx.to)
      && (o.result == Fail(SenderNotFound)
          <==> tx.from != tx.to
               && (tx.from !in m
                   || (tx.to in m && tx.txHash in m[tx.from].pendingTxs && author !in tx.approvers)))
      && (o.result == Fail(ReceiverNotFound) <==> tx.from != tx.to && tx.from in m && tx.to !in m)
      && (o.result == Ok
          <==> tx.from != tx.to && tx.from in m && tx.to in m
               && (tx.txHash in m[tx.from].pendingTxs ==> author in tx.approvers))
      && (o.result.Err? ==> o.wallets == m)
      && (tx.from != tx.to && tx.from in m && tx.to in m && tx.txHash !in m[tx.from].pendingTxs
          ==> o == Outcome(Ok, m))
  {
  }

  /**
   * Settling a proposal: its first occurrence leaves the pending list, the
   * sender keeps exactly its pending balance, the receiver gains the rest,
   * and the pending balance itself is left as it was.
   */
  lemma AcceptMultisignSuccess(env: Env, m: WalletMap, author: PublicKey, tx: AcceptMultisign)
    requires Schema.KeysMatch(m) && tx.Fits(m, author)
    requires tx.Execute(env, m, author).result == Ok
    requires tx.txHash in m[tx.from].pendingTxs
    ensures var r := tx.Execute(env, m, author).wallets;
      var settled := m[tx.from].balance - m[tx.from].pendingBalance;
      && r.Keys == m.Keys
      && r[tx.from].pendingTxs == FirstRemoved(m[tx.from].pendingTxs, tx.txHash)
      && |r[tx.from].pendingTxs| == |m[tx.from].pendingTxs| - 1
      && r[tx.from].balance == m[tx.from].pendingBalance
      && r[tx.from].pendingBalance == m[tx.from].pendingBalance
      && r[tx.to].balance == m[tx.to].balance + settled
      && r[tx.to].pendingTxs == m[tx.to].pendingTxs
      && r[tx.to].pendingBalance == m[tx.to].pendingBalance
      && r[tx.from].historyLen == m[tx.from].historyLen + 1
      && r[tx.to].historyLen == m[tx.to].historyLen + 1
      && r[tx.from].historyHash == env.historyHash(DeletePendingTx(m[tx.from], tx.txHash), tx.txHash)
      && r[tx.to].historyHash == env.historyHash(m[tx.to], tx.txHash)
      && forall k :: k in m && k != tx.from && k != tx.to ==> r[k] == m[k]
  {
  }

  /** An acceptance never changes the sum of all balances. */
  lemma AcceptMultisignConserves(env: Env, m: WalletMap, author: PublicKey, tx: AcceptMultisign)
    requires Schema.KeysMatch(m) && tx.Fits(m, author)
    ensures Schema.Total(tx.Execute(env, m, author).wallets) == Schema.Total(m)
  {
    var o := tx.Execute(env, m, author);
    if o.result == Ok && tx.txHash in m[tx.from].pendingTxs {
      var sender := DeletePendingTx(m[tx.from], tx.txHash);
      var released := Schema.RemoveTxFromWallet(m, m[tx.from], tx.txHash);
      var settled := Settled(sender);
      Schema.PutSameBalanceTotal(m, sender);
      Schema.DecreaseTotal(env, released, sender, settled, tx.txHash);
      var debited := Schema.DecreaseWalletBalance(env, released, sender, settled, tx.txHash);
      Schema.IncreaseTotal(env, debited, m[tx.to], settled, tx.txHash);
    }
  }

  // ------------------------------------------------------ Issue, CreateWallet

  /** Issuing credits the author's wallet only, or fails when the author has none. */
  lemma IssueEffect(env: Env, m: WalletMap, author: PublicKey, txHash: Hash, tx: Issue)
    requires Schema.KeysMatch(m) && tx.Fits(m, author)
    ensures var o := tx.Execute(env, m, author, txHash);
      && (o.result == Ok <==> author in m)
      && (author !in m ==> o == Outcome(Fail(ReceiverNotFound), m))
      && (author in m ==>
            && o.wallets.Keys == m.Keys
            && o.wallets[author].balance == m[author].balance + tx.amount
            && o.wallets[author].historyLen == m[author].historyLen + 1
            && o.wallets[author].historyHash == env.historyHash(m[author], txHash)
            && o.wallets[author].pendingTxs == m[author].pendingTxs
            && o.wallets[author].pendingBalance == m[author].pendingBalance
            && OthersUnchanged(m, o.wallets, author))
      && Schema.Total(o.wallets) == Schema.Total(m) + (if o.result == Ok then tx.amount else 0)
  {
    if author in m {
      Schema.IncreaseTotal(env, m, m[author], tx.amount, txHash);
    }
  }

  /** Creating adds one zero-balance wallet under the author's key, or fails when one exists. */
  lemma CreateWalletEffect(env: Env, m: WalletMap, author: PublicKey, txHash: Hash, tx: CreateWallet)
    ensures var o := tx.Execute(env, m, author, txHash);
      && (o.result == Ok <==> author !in m)
      && (author in m ==> o == Outcome(Fail(WalletAlreadyExists), m))
      && (author !in m ==>
            && o.wallets.Keys == m.Keys + {author}
            && o.wallets[author].pubKey == author
            && o.wallets[author].name == tx.name
            && o.wallets[author].balance == 0
            && o.wallets[author].pendingBalance == 0
            && o.wallets[author].pendingTxs == []
            && o.wallets[author].historyLen == 1
            && o.wallets[author].historyHash == env.historyHash(Schema.Blank(env, author, tx.name), txHash)
            && OthersUnchanged(m, o.wallets, author))
      && Schema.Total(o.wallets) == Schema.Total(m)
  {
    if author !in m {
      Schema.CreateTotal(env, m, author, tx.name, txHash);
    }
  }

  /** Resubmitting a wallet creation that succeeded is rejected and changes nothing. */
  lemma CreateWalletTwice(env: Env, m: WalletMap, author: PublicKey, h1: Hash, h2: Hash, tx: CreateWallet, again: CreateWallet)
    requires tx.Execute(env, m, author, h1).result == Ok
    ensures var m1 := tx.Execute(env, m, author, h1).wallets;
      again.Execute(env, m1, author, h2) == Outcome(Fail(WalletAlreadyExists), m1)
  {
  }

  // ------------------------------------------------------- Every transaction

  /**
   * Every transaction, whatever its outcome: keys keep matching records, a
   * rejection changes nothing, no wallet disappears or changes identity,
   * no history shrinks, and the sum of all balances moves only by what a
   * successful `Issue` mints.
   */
  lemma ExecuteInvariants(env: Env, m: WalletMap, author: PublicKey, txHash: Hash, tx: WalletTransactions)
    requires Schema.KeysMatch(m) && tx.Fits(m, author)
    ensures var o := tx.Execute(env, m, author, txHash);
      && Schema.KeysMatch(o.wallets)
      && (o.result.Err? ==> o.wallets == m)
      && m.Keys <= o.wallets.Keys
      && (forall k :: k in m ==> SameIdentity(o.wallets[k], m[k]) && m[k].historyLen <= o.wallets[k].historyLen)
      && Schema.Total(o.wallets) == Schema.Total(m) + (if o.result == Ok then tx.Minted() else 0)
  {
    match tx
    case TransferTx(t) => TransferConserves(env, m, author, txHash, t);
    case TransferMultisignTx(p) => TransferMultisignConserves(env, m, author, txHash, p);
    case AcceptMultisignTx(a) => AcceptMultisignConserves(env, m, author, a);
    case IssueTx(i) => IssueEffect(env, m, author, txHash, i);
    case CreateWalletTx(c) => CreateWalletEffect(env, m, author, txHash, c);
  }

  /** Over any ordered run of transactions, the total grows by exactly what was issued. */
  lemma {:induction false} RunConserves(env: Env, m: WalletMap, txs: seq<Signed>)
    requires Schema.KeysMatch(m) && RunFits(env, m, txs)
    ensures Schema.KeysMatch(Run(env, m, txs))
    ensures Schema.Total(Run(env, m, txs)) == Schema.Total(m) + Issued(env, m, txs)
    decreases |txs|
  {
    if txs != [] {
      var s := txs[0];
      ExecuteInvariants(env, m, s.author, s.txHash, s.tx);
      RunConserves(env, s.tx.Execute(env, m, s.author, s.txHash).wallets, txs[1..]);
    }
  }

  // ------------------------------------------------------ Proposal lifecycle

  /**
   * Propose, then accept: the sender's pending list is back to what it was,
   * the sender keeps the pending balance the proposal set, and the receiver
   * gains the rest of the sender's balance.
   */
  lemma ProposeThenAccept(env: Env, m: WalletMap, proposer: PublicKey, txHash: Hash,
                          p: TransferMultisign, approver: PublicKey, a: AcceptMultisign)
    requires Schema.KeysMatch(m)
    requires p.Execute(env, m, proposer, txHash).result == Ok
    requires txHash !in m[p.from].pendingTxs
    requires a.txHash == txHash && a.from == p.from && a.to == p.to && approver in a.approvers
    requires a.Fits(p.Execute(env, m, proposer, txHash).wallets, approver)
    ensures var m1 := p.Execute(env, m, proposer, txHash).wallets;
      var o := a.Execute(env, m1, approver);
      var pending := env.pendingRule(AddPendingTx(m[p.from], txHash), p.amount);
      && o.result == Ok
      && o.wallets[p.from].pendingTxs == m[p.from].pendingTxs
      && o.wallets[p.from].balance == pending
      && o.wallets[p.from].pendingBalance == pending
      && o.wallets[p.to].balance == m[p.to].balance + (m[p.from].balance - pending)
  {
    var m1 := p.Execute(env, m, proposer, txHash).wallets;
    TransferMultisignSuccess(env, m, proposer, txHash, p);
    ExecuteInvariants(env, m, proposer, txHash, TransferMultisignTx(p));
    AcceptMultisignSuccess(env, m1, approver, a);
    FirstRemovedAppended(m[p.from].pendingTxs, txHash);
  }

  /**
   * Under the subtract reading of the pending rule a proposal never leaves
   * more pending than the balance, and the proposal's acceptance moves
   * exactly the proposed amount.
   */
  lemma ProposeThenAcceptUnderSubtractRule(env: Env, m: WalletMap, proposer: PublicKey, txHash: Hash,
                                           p: TransferMultisign, approver: PublicKey, a: AcceptMultisign)
    requires Schema.KeysMatch(m) && SubtractRule(env)
    requires p.Execute(env, m, proposer, txHash).result == Ok
    requires txHash !in m[p.from].pendingTxs
    requires a.txHash == txHash && a.from == p.from && a.to == p.to && approver in a.approvers
    requires m[p.to].balance + p.amount < U64_LIMIT
    ensures var m1 := p.Execute(env, m, proposer, txHash).wallets;
      && m1[p.from].pendingBalance <= m1[p.from].balance
      && a.Fits(m1, approver)
      && var o := a.Execute(env, m1, approver);
         && o.result == Ok
         && o.wallets[p.from].balance == m[p.from].balance - p.amount
         && o.wallets[p.to].balance == m[p.to].balance + p.amount
  {
  }

  /**
   * An acceptance checks its author against its own approvers and pays its
   * own receiver: any author with a wallet can settle any pending proposal
   * to itself, naming itself as the only approver.
   */
  lemma AnyAuthorCanSettle(env: Env, m: WalletMap, proposal: Hash, from: PublicKey, other: PublicKey, seed: uint64)
    requires Schema.KeysMatch(m) && from != other && from in m && other in m
    requires proposal in m[from].pendingTxs
    requires AcceptMultisign(proposal, from, other, [other], seed).Fits(m, other)
    ensures var o := AcceptMultisign(proposal, from, other, [other], seed).Execute(env, m, other);
      && o.result == Ok
      && o.wallets[other].balance == m[other].balance + (m[from].balance - m[from].pendingBalance)
      && o.wallets[from].balance == m[from].pendingBalance
  {
  }

  /**
   * Under the subtract reading, a credit between the proposal and its
   * acceptance changes what is settled: a proposal of 10 from 100, then 50
   * issued, and the acceptance moves 60.
   */
  lemma CreditBeforeAcceptance(env: Env, m: WalletMap, alice: PublicKey, bob: PublicKey, h1: Hash, h2: Hash)
    requires Schema.KeysMatch(m) && SubtractRule(env) && alice != bob && alice in m && bob in m
    requires m[alice].balance == 100 && h1 !in m[alice].pendingTxs && m[bob].balance < 1000
    ensures var p := TransferMultisign(alice, bob, [alice], 10, 1);
      var m1 := p.Execute(env, m, alice, h1).wallets;
      var m2 := Issue(50, 2).Execute(env, m1, alice, h2).wallets;
      var a := AcceptMultisign(h1, alice, bob, [alice], 3);
      && m1[alice].pendingBalance == 90
      && m2[alice].balance == 150
      && a.Fits(m2, alice)
      && a.Execute(env, m2, alice).wallets[bob].balance == m[bob].balance + 60
  {
  }

  /**
   * Under the subtract reading, a debit between the proposal and its
   * acceptance leaves more pending than the balance: a proposal of 10 from
   * 100, then a transfer of 50 out, leaves 50 against 90 pending, and the
   * acceptance no longer fits.
   */
  lemma DebitBeforeAcceptance(env: Env, m: WalletMap, alice: PublicKey, bob: PublicKey, h1: Hash, h2: Hash)
    requires Schema.KeysMatch(m) && SubtractRule(env) && alice != bob && alice in m && bob in m
    requires m[alice].balance == 100 && h1 !in m[alice].pendingTxs && m[bob].balance < 1000
    ensures var p := TransferMultisign(alice, bob, [alice], 10, 1);
      var m1 := p.Execute(env, m, alice, h1).wallets;
      var t := Transfer(bob, 50, 2);
      && t.Fits(m1, alice)
      && var m2 := t.Execute(env, m1, alice, h2).wallets;
         && m2[alice].balance == 50 && m2[alice].pendingBalance == 90
         && !AcceptMultisign(h1, alice, bob, [alice], 3).Fits(m2, alice)
  {
  }

  // ---------------------------------------------------------------- Scenarios

  /** Two wallets, 100 issued to the first, 30 transferred: 70 and 30; then 150 more is refused. */
  lemma ScenarioTransfer(env: Env, alice: PublicKey, bob: PublicKey, h1: Hash, h2: Hash, h3: Hash, h4: Hash, h5: Hash)
    requires alice != bob
    ensures var m1 := CreateWallet("alice").Execute(env, map[], alice, h1).wallets;
      var m2 := CreateWallet("bob").Execute(env, m1, bob, h2).wallets;
      var m3 := Issue(100, 1).Execute(env, m2, alice, h3).wallets;
      var o4 := Transfer(bob, 30, 2).Execute(env, m3, alice, h4);
      var o5 := Transfer(bob, 150, 3).Execute(env, o4.wallets, alice, h5);
      && o4.result == Ok && o4.wallets[alice].balance == 70 && o4.wallets[bob].balance == 30
      && o5 == Outcome(Fail(InsufficientCurrencyAmount), o4.wallets)
  {
  }

  /**
   * A proposal of 40 from a wallet holding 100, under the add reading of the
   * pending rule, then its acceptance: 60 moves, 40 stays, and the
   * pending balance remains 40.
   */
  lemma ScenarioMultisign(env: Env, alice: PublicKey, bob: PublicKey, carol: PublicKey,
                          h1: Hash, h2: Hash, h3: Hash, h4: Hash)
    requires alice != bob && AddRule(env)
    ensures var m1 := CreateWallet("alice").Execute(env, map[], alice, h1).wallets;
      var m2 := CreateWallet("bob").Execute(env, m1, bob, h2).wallets;
      var m3 := Issue(100, 1).Execute(env, m2, alice, h3).wallets;
      var o4 := TransferMultisign(alice, bob, [carol], 40, 1).Execute(env, m3, carol, h4);
      && o4.result == Ok
      && o4.wallets[alice].balance == 100 && o4.wallets[alice].pendingBalance == 40
      && o4.wallets[alice].pendingTxs == [h4]
      && AcceptMultisign(h4, alice, bob, [carol], 1).Fits(o4.wallets, carol)
      && var o5 := AcceptMultisign(h4, alice, bob, [carol], 1).Execute(env, o4.wallets, carol);
         && o5.result == Ok
         && o5.wallets[alice].balance == 40 && o5.wallets[alice].pendingBalance == 40
         && o5.wallets[alice].pendingTxs == []
         && o5.wallets[bob].balance == 60
  {
  }

  /**
   * Under the add reading of the pending rule, nothing in the proposal keeps
   * the pending balance at or below the balance: two proposals of 60 from a
   * balance of 100 both go through and leave 120 pending.
   */
  lemma PendingCanExceedBalance(env: Env, m: WalletMap, alice: PublicKey, bob: PublicKey,
                                h1: Hash, h2: Hash)
    requires Schema.KeysMatch(m) && alice != bob && alice in m && bob in m
    requires m[alice].balance == 100 && m[alice].pendingBalance == 0
    requires AddRule(env)
    ensures var p := TransferMultisign(alice, bob, [alice], 60, 1);
      var o1 := p.Execute(env, m, alice, h1);
      var o2 := p.Execute(env, o1.wallets, alice, h2);
      && o1.result == Ok && o2.result == Ok
      && o2.wallets[alice].balance == 100 && o2.wallets[alice].pendingBalance == 120
  {
  }
}
