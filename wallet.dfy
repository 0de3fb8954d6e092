/**
 * The wallet record of the cryptocurrency service and its copy-on-write
 * setters (backend/src/wallet.rs). Every setter takes a wallet and returns a
 * fresh one; no setter touches the identity of the wallet (its public key
 * and its name).
 */
module Wallets {

  /** Unsigned 64-bit integers, the width of every amount in the ledger. */
  const U64_LIMIT: int := 0x1_0000_0000_0000_0000
  type uint64 = x: int | 0 <= x < U64_LIMIT

  /** Public keys and hashes are compared for equality only. */
  type PublicKey(==, !new)
  type Hash(==, !new)

  datatype Option<T> = None | Some(value: T)

  datatype Wallet = Wallet(
    pubKey: PublicKey,
    name: string,
    balance: uint64,
    pendingBalance: uint64,
    pendingTxs: seq<Hash>,
    historyLen: nat,
    historyHash: Hash)

  /** Two records describe the same wallet: same key and same name. */
  predicate SameIdentity(a: Wallet, b: Wallet)
  {
    a.pubKey == b.pubKey && a.name == b.name
  }

  /** `Wallet::new`: every argument is stored as given. */
  function New(pubKey: PublicKey, name: string, balance: uint64, pendingBalance: uint64,
               pendingTxsList: seq<Hash>, historyLen: nat, historyHash: Hash): (w: Wallet)
    ensures w.pubKey == pubKey && w.name == name
    ensures w.balance == balance && w.pendingBalance == pendingBalance
    ensures w.pendingTxs == pendingTxsList
    ensures w.historyLen == historyLen && w.historyHash == historyHash
  {
    Wallet(pubKey, name, balance, pendingBalance, pendingTxsList, historyLen, historyHash)
  }

  /** `set_balance`: a new balance is one more entry in the wallet's history. */
  function SetBalance(w: Wallet, balance: uint64, historyHash: Hash): (r: Wallet)
    ensures SameIdentity(w, r)
    ensures r.balance == balance
    ensures r.historyLen == w.historyLen + 1 && r.historyHash == historyHash
    ensures r.pendingBalance == w.pendingBalance && r.pendingTxs == w.pendingTxs
  {
    New(w.pubKey, w.name, balance, w.pendingBalance, w.pendingTxs, w.historyLen + 1, historyHash)
  }

  /** `set_pending_balance`: only the pending balance changes; the history does not. */
  function SetPendingBalance(w: Wallet, balance: uint64): (r: Wallet)
    ensures SameIdentity(w, r)
    ensures r.pendingBalance == balance
    ensures r.balance == w.balance && r.pendingTxs == w.pendingTxs
    ensures r.historyLen == w.historyLen && r.historyHash == w.historyHash
  {
    New(w.pubKey, w.name, w.balance, balance, w.pendingTxs, w.historyLen, w.historyHash)
  }

  /** `add_pending_tx`: the hash goes at the end, with no check for duplicates. */
  function AddPendingTx(w: Wallet, txHash: Hash): (r: Wallet)
    ensures SameIdentity(w, r)
    ensures |r.pendingTxs| == |w.pendingTxs| + 1
    ensures r.pendingTxs[..|w.pendingTxs|] == w.pendingTxs && r.pendingTxs[|w.pendingTxs|] == txHash
    ensures r.balance == w.balance && r.pendingBalance == w.pendingBalance
    ensures r.historyLen == w.historyLen && r.historyHash == w.historyHash
  {
    New(w.pubKey, w.name, w.balance, w.pendingBalance, w.pendingTxs + [txHash], w.historyLen, w.historyHash)
  }

  /** The first occurrence of `h` removed from `s`; `s` itself when `h` is absent. */
  function FirstRemoved(s: seq<Hash>, h: Hash): (r: seq<Hash>)
    ensures multiset(r) == multiset(s) - multiset{h}
    ensures h !in s ==> r == s
    ensures h in s ==> |r| == |s| - 1
  {
    if s == [] then []
    else if s[0] == h then
      assert s == [s[0]] + s[1..];
      s[1..]
    else
      assert s == [s[0]] + s[1..];
      [s[0]] + FirstRemoved(s[1..], h)
  }

  /** `delete_pending_tx` as a value: the first matching hash leaves the list. */
  function DeletePendingTx(w: Wallet, txHash: Hash): (r: Wallet)
    ensures SameIdentity(w, r)
    ensures txHash !in w.pendingTxs ==> r == w
    ensures r.pendingTxs == FirstRemoved(w.pendingTxs, txHash)
    ensures r.balance == w.balance && r.pendingBalance == w.pendingBalance
    ensures r.historyLen == w.historyLen && r.historyHash == w.historyHash
  {
    New(w.pubKey, w.name, w.balance, w.pendingBalance, FirstRemoved(w.pendingTxs, txHash),
        w.historyLen, w.historyHash)
  }

  /** `iter().position(|x| x == target)`: the index of the first match, if any. */
  method Position<T(==)>(s: seq<T>, target: T) returns (r: Option<nat>)
    ensures r.None? <==> target !in s
    ensures r.Some? ==> r.value < |s| && s[r.value] == target && target !in s[..r.value]
  {
    var i := 0;
    while i < |s|
      invariant 0 <= i <= |s|
      invariant target !in s[..i]
    {
      if s[i] == target {
        return Some(i);
      }
      i := i + 1;
    }
    assert s[..i] == s;
    return None;
  }

  /**
   * `delete_pending_tx` as the source runs it: find the position of the
   * hash in the moved vector, remove that element, rebuild the record.
   */
  method DeletePendingTxByPosition(w: Wallet, txHash: Hash) returns (r: Wallet)
    ensures r == DeletePendingTx(w, txHash)
  {
    var pendingTxs := w.pendingTxs;
    var index := Position(pendingTxs, txHash);
    if index.Some? {
      FirstRemovedAt(pendingTxs, txHash, index.value);
      pendingTxs := pendingTxs[..index.value] + pendingTxs[index.value + 1..];
    }
    r := New(w.pubKey, w.name, w.balance, w.pendingBalance, pendingTxs, w.historyLen, w.historyHash);
  }

  /** Removing the first occurrence is cutting out the element at its index. */
  lemma {:induction false} FirstRemovedAt(s: seq<Hash>, h: Hash, i: nat)
    requires i < |s| && s[i] == h && h !in s[..i]
    ensures FirstRemoved(s, h) == s[..i] + s[i + 1..]
  {
    if i > 0 {
      assert s[1..][..i - 1] == s[1..i];
      assert h !in s[1..][..i - 1];
      FirstRemovedAt(s[1..], h, i - 1);
      assert s[1..][i - 1 + 1..] == s[i + 1..];
      assert s[..i] == [s[0]] + s[1..i];
    }
  }

  /** Appending a fresh hash and then deleting it gives back the list. */
  lemma {:induction false} FirstRemovedAppended(s: seq<Hash>, h: Hash)
    requires h !in s
    ensures FirstRemoved(s + [h], h) == s
  {
    if s != [] {
      assert (s + [h])[1..] == s[1..] + [h];
      FirstRemovedAppended(s[1..], h);
    }
  }

  /** Round trip of the pending list: delete undoes add for a hash not yet pending. */
  lemma DeleteAfterAdd(w: Wallet, txHash: Hash)
    requires txHash !in w.pendingTxs
    ensures DeletePendingTx(AddPendingTx(w, txHash), txHash) == w
  {
    FirstRemovedAppended(w.pendingTxs, txHash);
  }
}
