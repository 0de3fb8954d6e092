/**
 * The storage primitives the transactions call on their `Schema`. Their
 * source (backend/src/schema.rs) is not part of this model; each one is
 * defined here, as a modelling assumption, by the visible wallet setters
 * followed by writing the new record back under its own key. What the
 * storage layer computes and this model does not see (the Merkle root of a
 * wallet's history, the rule for the pending balance) comes in through an
 * `Env` value.
 */
module Schema {
  import opened Wallets

  /** The wallets table: public key to wallet record. */
  type WalletMap = map<PublicKey, Wallet>

  /**
   * What the primitives leave to collaborators: the new history hash of a
   * wallet after it records a transaction hash, the hash of an empty
   * history, and the new pending balance of a wallet record (as it stands
   * when the primitive is called) given an amount.
   */
  datatype Env = Env(
    historyHash: (Wallet, Hash) -> Hash,
    emptyHistory: Hash,
    pendingRule: (Wallet, uint64) -> uint64)

  /** Every record is stored under its own public key. */
  predicate KeysMatch(m: WalletMap)
  {
    forall k :: k in m ==> m[k].pubKey == k
  }

  /** The assumed storage write: the record stored under its own public key. */
  function Put(m: WalletMap, w: Wallet): (r: WalletMap)
    ensures KeysMatch(m) ==> KeysMatch(r)
    ensures r.Keys == m.Keys + {w.pubKey} && r[w.pubKey] == w
    ensures forall k :: k in m && k != w.pubKey ==> r[k] == m[k]
  {
    m[w.pubKey := w]
  }

  /** `increase_wallet_balance`: credit `amount`, recording `txHash` in the history. */
  function IncreaseWalletBalance(env: Env, m: WalletMap, w: Wallet, amount: uint64, txHash: Hash): WalletMap
    requires w.balance + amount < U64_LIMIT
  {
    Put(m, SetBalance(w, w.balance + amount, env.historyHash(w, txHash)))
  }

  /** `decrease_wallet_balance`: debit `amount`, recording `txHash` in the history. */
  function DecreaseWalletBalance(env: Env, m: WalletMap, w: Wallet, amount: uint64, txHash: Hash): WalletMap
    requires amount <= w.balance
  {
    Put(m, SetBalance(w, w.balance - amount, env.historyHash(w, txHash)))
  }

  /** `add_tx_to_wallet`: append a proposal hash to the pending list. */
  function AddTxToWallet(m: WalletMap, w: Wallet, txHash: Hash): WalletMap
  {
    Put(m, AddPendingTx(w, txHash))
  }

  /** `remove_tx_from_wallet`: drop the first occurrence of a proposal hash. */
  function RemoveTxFromWallet(m: WalletMap, w: Wallet, txHash: Hash): WalletMap
  {
    Put(m, DeletePendingTx(w, txHash))
  }

  /**
   * `decrease_wallet_pending_balance`: the pending balance set by
   * `env.pendingRule` from the whole record and the amount.
   */
  function DecreaseWalletPendingBalance(env: Env, m: WalletMap, w: Wallet, amount: uint64): WalletMap
  {
    Put(m, SetPendingBalance(w, env.pendingRule(w, amount)))
  }

  /** The blank record a new wallet starts from, before its creation is recorded. */
  function Blank(env: Env, key: PublicKey, name: string): Wallet
  {
    New(key, name, 0, 0, [], 0, env.emptyHistory)
  }

  /**
   * `create_wallet`: a zero-balance wallet with no pending transfers, whose
   * history holds the creating transaction.
   */
  function CreateWallet(env: Env, m: WalletMap, key: PublicKey, name: string, txHash: Hash): WalletMap
  {
    var blank := Blank(env, key, name);
    Put(m, SetBalance(blank, 0, env.historyHash(blank, txHash)))
  }

  /** Sum of all balances in the table. */
  ghost function Total(m: WalletMap): int
    decreases |m|
  {
    if m == map[] then 0
    else
      var k :| k in m;
      m[k].balance + Total(m - {k})
  }

  /** The total can be split at any key, not only the one `Total` picks. */
  lemma {:induction false} TotalRemove(m: WalletMap, k: PublicKey)
    requires k in m
    ensures Total(m) == m[k].balance + Total(m - {k})
    decreases |m|
  {
    var j :| j in m && Total(m) == m[j].balance + Total(m - {j});
    if j != k {
      var rest := m - {j};
      assert k in rest && |rest| < |m|;
      TotalRemove(rest, k);
      var other := m - {k};
      assert j in other && |other| < |m|;
      TotalRemove(other, j);
      assert rest - {k} == other - {j};
    }
  }

  /** Replacing one record changes the total by the difference of the two balances. */
  lemma TotalUpdate(m: WalletMap, k: PublicKey, w: Wallet)
    requires k in m
    ensures Total(m[k := w]) == Total(m) - m[k].balance + w.balance
  {
    TotalRemove(m, k);
    TotalRemove(m[k := w], k);
    assert m[k := w] - {k} == m - {k};
  }

  /** Adding a record under a new key adds its balance to the total. */
  lemma TotalInsert(m: WalletMap, k: PublicKey, w: Wallet)
    requires k !in m
    ensures Total(m[k := w]) == Total(m) + w.balance
  {
    TotalRemove(m[k := w], k);
    assert m[k := w] - {k} == m;
  }

  /** A credit to a stored wallet raises the total by exactly the amount. */
  lemma IncreaseTotal(env: Env, m: WalletMap, w: Wallet, amount: uint64, txHash: Hash)
    requires KeysMatch(m) && w.pubKey in m && m[w.pubKey] == w
    requires w.balance + amount < U64_LIMIT
    ensures Total(IncreaseWalletBalance(env, m, w, amount, txHash)) == Total(m) + amount
  {
    TotalUpdate(m, w.pubKey, SetBalance(w, w.balance + amount, env.historyHash(w, txHash)));
  }

  /** A debit from a stored wallet lowers the total by exactly the amount. */
  lemma DecreaseTotal(env: Env, m: WalletMap, w: Wallet, amount: uint64, txHash: Hash)
    requires KeysMatch(m) && w.pubKey in m && m[w.pubKey] == w
    requires amount <= w.balance
    ensures Total(DecreaseWalletBalance(env, m, w, amount, txHash)) == Total(m) - amount
  {
    TotalUpdate(m, w.pubKey, SetBalance(w, w.balance - amount, env.historyHash(w, txHash)));
  }

  /** A record written back with the same balance leaves the total as it was. */
  lemma PutSameBalanceTotal(m: WalletMap, w: Wallet)
    requires w.pubKey in m && m[w.pubKey].balance == w.balance
    ensures Total(Put(m, w)) == Total(m)
  {
    TotalUpdate(m, w.pubKey, w);
  }

  /** Creating a wallet under a fresh key leaves the total as it was. */
  lemma CreateTotal(env: Env, m: WalletMap, key: PublicKey, name: string, txHash: Hash)
    requires key !in m
    ensures Total(CreateWallet(env, m, key, name, txHash)) == Total(m)
  {
    var blank := Blank(env, key, name);
    TotalInsert(m, key, SetBalance(blank, 0, env.historyHash(blank, txHash)));
  }
}
