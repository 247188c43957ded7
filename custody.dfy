/** Custody: the contract holds, for each token, at least the amounts of its open escrows.
    A successful create adds the amount to both sides, a resolution removes it from both,
    so the property is kept and no resolution can trap. The one exception is a create whose
    sender is the contract itself: its transfer moves nothing, yet it locks the amount. */
module Custody {
  import opened HtlcTypes
  import opened Token
  import opened EscrowLedger

  /** What one record keeps locked in the given token. */
  function Held(e: Escrow, token: Address): int {
    if e.Open() && e.tokenAddress == token then e.amount as int else 0
  }

  /** The total locked in the given token by the records of a store. */
  ghost function Locked(m: map<Bytes, Escrow>, token: Address): int
    decreases |m|
  {
    if m == map[] then 0
    else
      var k :| k in m;
      assert |m - {k}| < |m| by { assert (m - {k}).Keys == m.Keys - {k}; }
      Held(m[k], token) + Locked(m - {k}, token)
  }

  /** The contract's balance covers, token by token, everything its open escrows lock. */
  ghost predicate Solvent(l: Ledger) {
    forall token :: Locked(l.storage, token) <= BalanceOf(l.balances, token, l.contract)
  }

  /** Any stored record can be split off the total, whatever record the sum chose first. */
  lemma {:induction false} LockedRemove(m: map<Bytes, Escrow>, k: Bytes, token: Address)
    requires k in m
    ensures Locked(m, token) == Held(m[k], token) + Locked(m - {k}, token)
    decreases |m|
  {
    var j :| j in m && Locked(m, token) == Held(m[j], token) + Locked(m - {j}, token);
    if j != k {
      assert (m - {j}).Keys == m.Keys - {j};
      assert (m - {k}).Keys == m.Keys - {k};
      LockedRemove(m - {j}, k, token);
      LockedRemove(m - {k}, j, token);
      assert m - {j} - {k} == m - {k} - {j};
    }
  }

  /** Storing `e` under `k` replaces whatever `k` contributed by what `e` holds. */
  lemma LockedUpdate(m: map<Bytes, Escrow>, k: Bytes, e: Escrow, token: Address)
    ensures Locked(m[k := e], token) == Held(e, token) + Locked(m - {k}, token)
    ensures k in m ==> Locked(m, token) == Held(m[k], token) + Locked(m - {k}, token)
    ensures k !in m ==> Locked(m, token) == Locked(m - {k}, token)
  {
    LockedRemove(m[k := e], k, token);
    assert m[k := e] - {k} == m - {k};
    if k in m {
      LockedRemove(m, k, token);
    } else {
      assert m - {k} == m;
    }
  }

  /** With no negative amount stored, nothing locks a negative total. */
  lemma {:induction false} LockedNonNegative(m: map<Bytes, Escrow>, token: Address)
    requires forall id :: id in m ==> m[id].amount >= 0
    ensures Locked(m, token) >= 0
    decreases |m|
  {
    if m != map[] {
      var k :| k in m;
      LockedRemove(m, k, token);
      assert (m - {k}).Keys == m.Keys - {k};
      LockedNonNegative(m - {k}, token);
    }
  }

  /** A successful create by anyone other than the contract keeps the contract solvent:
      whatever the overwritten record held (if anything) is released, the new amount is
      locked, and exactly that amount arrives at the contract. */
  lemma CreatePreservesSolvency(l: Ledger, hash: Hasher, sender: Address, receiver: Address, amount: i128,
                                secretHash: Bytes, timelock: u64, token: Address, orderId: Bytes)
    requires Invariant(l) && Solvent(l)
    requires sender != l.contract
    ensures Solvent(Create(l, hash, sender, receiver, amount, secretHash, timelock, token, orderId).post)
  {
    var s := Create(l, hash, sender, receiver, amount, secretHash, timelock, token, orderId);
    if s.outcome.Ok? {
      var id := hash(orderId);
      var e := NewEscrow(l, sender, receiver, amount, secretHash, timelock, token, orderId);
      forall t
        ensures Locked(s.post.storage, t) <= BalanceOf(s.post.balances, t, l.contract)
      {
        LockedUpdate(l.storage, id, e, t);
        assert Locked(l.storage, t) <= BalanceOf(l.balances, t, l.contract);
        if id in l.storage {
          assert WellFormed(l.storage[id]);
        }
      }
    }
  }

  /** A successful withdraw releases the record's amount and pays at most that much out. */
  lemma WithdrawPreservesSolvency(l: Ledger, hash: Hasher, id: Bytes, secret: Bytes, receiver: Address)
    requires Solvent(l)
    ensures Solvent(Withdraw(l, hash, id, secret, receiver).post)
  {
    var s := Withdraw(l, hash, id, secret, receiver);
    if s.outcome.Ok? {
      var e := l.storage[id];
      forall t
        ensures Locked(s.post.storage, t) <= BalanceOf(s.post.balances, t, l.contract)
      {
        LockedUpdate(l.storage, id, e.(withdrawn := true), t);
        assert Locked(l.storage, t) <= BalanceOf(l.balances, t, l.contract);
      }
    }
  }

  /** A successful cancel releases the record's amount and refunds at most that much. */
  lemma CancelPreservesSolvency(l: Ledger, id: Bytes, sender: Address)
    requires Solvent(l)
    ensures Solvent(Cancel(l, id, sender).post)
  {
    var s := Cancel(l, id, sender);
    if s.outcome.Ok? {
      var e := l.storage[id];
      forall t
        ensures Locked(s.post.storage, t) <= BalanceOf(s.post.balances, t, l.contract)
      {
        LockedUpdate(l.storage, id, e.(cancelled := true), t);
        assert Locked(l.storage, t) <= BalanceOf(l.balances, t, l.contract);
      }
    }
  }

  /** In a solvent ledger the contract holds every open record's amount. */
  lemma OpenRecordIsCovered(l: Ledger, id: Bytes)
    requires Invariant(l) && Solvent(l)
    requires id in l.storage && l.storage[id].Open()
    ensures 0 <= l.storage[id].amount as int <= BalanceOf(l.balances, l.storage[id].tokenAddress, l.contract)
  {
    var e := l.storage[id];
    LockedRemove(l.storage, id, e.tokenAddress);
    LockedNonNegative(l.storage - {id}, e.tokenAddress);
    assert Locked(l.storage, e.tokenAddress) <= BalanceOf(l.balances, e.tokenAddress, l.contract);
  }

  /** In a solvent ledger a withdraw succeeds exactly when the record is open, the secret
      verifies and the caller is the receiver: the payout transfer never traps. */
  lemma WithdrawSucceedsIff(l: Ledger, hash: Hasher, id: Bytes, secret: Bytes, receiver: Address)
    requires Invariant(l) && Solvent(l)
    ensures Withdraw(l, hash, id, secret, receiver).outcome.Ok? <==>
              && VerifySecret(l, hash, id, secret)
              && l.storage[id].Open()
              && receiver == l.storage[id].receiver
  {
    if id in l.storage && l.storage[id].Open() {
      OpenRecordIsCovered(l, id);
    }
  }

  /** In a solvent ledger `can_cancel` is exactly "a cancel by the record's sender would
      succeed now": the refund transfer never traps. */
  lemma CanCancelIffCancelSucceeds(l: Ledger, id: Bytes)
    requires Invariant(l) && Solvent(l)
    ensures CanCancel(l, id) <==> id in l.storage && Cancel(l, id, l.storage[id].sender).outcome.Ok?
  {
    if id in l.storage && l.storage[id].Open() {
      OpenRecordIsCovered(l, id);
    }
  }

  /** A create whose sender is the contract's own address passes the balance check
      against the contract's holdings, and its transfer from the contract to itself moves
      nothing, yet the new record locks `amount`. A fully committed contract balance is
      then over-committed, and the excess can be withdrawn from other escrows' funds. */
  lemma SelfFundedCreateOvercommits(l: Ledger, hash: Hasher, receiver: Address, amount: i128,
                                    secretHash: Bytes, timelock: u64, token: Address, orderId: Bytes)
    requires Invariant(l)
    requires hash(orderId) !in l.storage
    requires Create(l, hash, l.contract, receiver, amount, secretHash, timelock, token, orderId).outcome.Ok?
    ensures var s := Create(l, hash, l.contract, receiver, amount, secretHash, timelock, token, orderId);
            && Locked(s.post.storage, token) == Locked(l.storage, token) + amount as int
            && BalanceOf(s.post.balances, token, l.contract) == BalanceOf(l.balances, token, l.contract)
    ensures var s := Create(l, hash, l.contract, receiver, amount, secretHash, timelock, token, orderId);
            amount > 0 && Locked(l.storage, token) == BalanceOf(l.balances, token, l.contract) ==> !Solvent(s.post)
  {
    var id := hash(orderId);
    var s := Create(l, hash, l.contract, receiver, amount, secretHash, timelock, token, orderId);
    LockedUpdate(l.storage, id, NewEscrow(l, l.contract, receiver, amount, secretHash, timelock, token, orderId), token);
  }
}
