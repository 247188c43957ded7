/** The per-record state machine Open -> Withdrawn | Open -> Cancelled: the invariant the
    entry points keep, finality of both resolutions, the read-only predicates against the
    operations they advise on, and the contract's behaviour on reused order identifiers. */
module Lifecycle {
  import opened HtlcTypes
  import opened Token
  import opened EscrowLedger

  lemma CreatePreservesInvariant(l: Ledger, hash: Hasher, sender: Address, receiver: Address, amount: i128,
                                 secretHash: Bytes, timelock: u64, token: Address, orderId: Bytes)
    requires Invariant(l)
    ensures Invariant(Create(l, hash, sender, receiver, amount, secretHash, timelock, token, orderId).post)
  {
  }

  lemma WithdrawPreservesInvariant(l: Ledger, hash: Hasher, id: Bytes, secret: Bytes, receiver: Address)
    requires Invariant(l)
    ensures Invariant(Withdraw(l, hash, id, secret, receiver).post)
  {
  }

  lemma CancelPreservesInvariant(l: Ledger, id: Bytes, sender: Address)
    requires Invariant(l)
    ensures Invariant(Cancel(l, id, sender).post)
  {
  }

  /** A resolved record stays resolved: every later withdraw or cancel on it, by anyone,
      with any secret and at any time, is refused with the flag already set and changes
      nothing. */
  lemma ResolvedIsFinal(l: Ledger, hash: Hasher, id: Bytes, secret: Bytes, receiver: Address, sender: Address)
    requires id in l.storage && !l.storage[id].Open()
    ensures var expected := if l.storage[id].withdrawn then AlreadyWithdrawn else AlreadyCancelled;
            && Withdraw(l, hash, id, secret, receiver) == Step(Err(expected), l)
            && Cancel(l, id, sender) == Step(Err(expected), l)
  {
  }

  /** After a successful withdraw, at any later time, a cancel and a second withdraw are
      both refused with `AlreadyWithdrawn`. */
  lemma WithdrawExcludesCancel(l: Ledger, hash: Hasher, id: Bytes, secret: Bytes, receiver: Address,
                               later: u64, secret': Bytes, receiver': Address, sender: Address)
    requires Withdraw(l, hash, id, secret, receiver).outcome.Ok?
    ensures var after := Withdraw(l, hash, id, secret, receiver).post.(now := later);
            && Cancel(after, id, sender).outcome == Err(AlreadyWithdrawn)
            && Withdraw(after, hash, id, secret', receiver').outcome == Err(AlreadyWithdrawn)
  {
    var after := Withdraw(l, hash, id, secret, receiver).post.(now := later);
    assert after.storage[id].withdrawn;
  }

  /** After a successful cancel, at any later time, a withdraw with any secret (the
      right one included) and a second cancel are both refused with `AlreadyCancelled`. */
  lemma CancelExcludesWithdraw(l: Ledger, hash: Hasher, id: Bytes, sender: Address,
                               later: u64, secret: Bytes, receiver: Address, sender': Address)
    requires Cancel(l, id, sender).outcome.Ok?
    ensures var after := Cancel(l, id, sender).post.(now := later);
            && Withdraw(after, hash, id, secret, receiver).outcome == Err(AlreadyCancelled)
            && Cancel(after, id, sender').outcome == Err(AlreadyCancelled)
  {
    var after := Cancel(l, id, sender).post.(now := later);
    assert after.storage[id].cancelled && !after.storage[id].withdrawn;
  }

  /** Resolution touches only the record it resolves: every other identifier maps to the
      same record afterwards. */
  lemma ResolutionIsLocal(l: Ledger, hash: Hasher, id: Bytes, secret: Bytes, receiver: Address,
                          sender: Address, other: Bytes)
    requires other != id
    ensures GetEscrow(Withdraw(l, hash, id, secret, receiver).post, other) == GetEscrow(l, other)
    ensures GetEscrow(Cancel(l, id, sender).post, other) == GetEscrow(l, other)
  {
  }

  /** `can_cancel` is true exactly when a cancel by the record's own sender passes every
      check of `cancel`; a cancel by anybody else is then refused as unauthorised. */
  lemma CanCancelMatchesCancel(l: Ledger, id: Bytes, sender: Address)
    ensures CanCancel(l, id) <==> id in l.storage && !Cancel(l, id, l.storage[id].sender).outcome.Err?
    ensures CanCancel(l, id) && sender != l.storage[id].sender ==>
              Cancel(l, id, sender).outcome == Err(UnauthorizedAccess)
  {
  }

  /** Once true, `can_cancel` stays true as the clock advances, until the record is resolved. */
  lemma CanCancelPersists(l: Ledger, id: Bytes, later: u64)
    requires l.now <= later
    ensures CanCancel(l, id) ==> CanCancel(l.(now := later), id)
  {
  }

  /** `verify_secret` ignores resolution: withdrawing or cancelling any record leaves its
      answer unchanged for every identifier and secret. */
  lemma VerifySecretIgnoresResolution(l: Ledger, hash: Hasher, id: Bytes, secret: Bytes, receiver: Address,
                                      sender: Address, probe: Bytes, guess: Bytes)
    ensures VerifySecret(Withdraw(l, hash, id, secret, receiver).post, hash, probe, guess)
              == VerifySecret(l, hash, probe, guess)
    ensures VerifySecret(Cancel(l, id, sender).post, hash, probe, guess) == VerifySecret(l, hash, probe, guess)
  {
    if probe == id && id in l.storage {
      assert Withdraw(l, hash, id, secret, receiver).post.storage[id].secretHash == l.storage[id].secretHash;
      assert Cancel(l, id, sender).post.storage[id].secretHash == l.storage[id].secretHash;
    }
  }

  /** A withdraw that succeeds was given a secret that `verify_secret` accepts. */
  lemma WithdrawNeedsVerifiedSecret(l: Ledger, hash: Hasher, id: Bytes, secret: Bytes, receiver: Address)
    requires Withdraw(l, hash, id, secret, receiver).outcome.Ok?
    ensures VerifySecret(l, hash, id, secret)
  {
  }

  /** After a successful create, `get_escrow` on the returned identifier yields a record
      with every field as supplied, both flags clear and `created_at` equal to the clock. */
  lemma CreateThenGet(l: Ledger, hash: Hasher, sender: Address, receiver: Address, amount: i128,
                      secretHash: Bytes, timelock: u64, token: Address, orderId: Bytes)
    requires Create(l, hash, sender, receiver, amount, secretHash, timelock, token, orderId).outcome.Ok?
    ensures var s := Create(l, hash, sender, receiver, amount, secretHash, timelock, token, orderId);
            GetEscrow(s.post, s.outcome.value)
              == Some(Escrow(sender, receiver, amount, secretHash, timelock, token, orderId, false, false, l.now))
  {
  }

  /** A secret committed through `generate_secret_hash` verifies against the escrow that
      stores the commitment, and a withdraw by the receiver with it passes every check. */
  lemma GeneratedCommitmentOpens(l: Ledger, hash: Hasher, sender: Address, receiver: Address, amount: i128,
                                 secret: Bytes, timelock: u64, token: Address, orderId: Bytes)
    requires Create(l, hash, sender, receiver, amount, GenerateSecretHash(hash, secret), timelock, token, orderId).outcome.Ok?
    ensures var s := Create(l, hash, sender, receiver, amount, GenerateSecretHash(hash, secret), timelock, token, orderId);
            && VerifySecret(s.post, hash, s.outcome.value, secret)
            && !Withdraw(s.post, hash, s.outcome.value, secret, receiver).outcome.Err?
  {
    var s := Create(l, hash, sender, receiver, amount, GenerateSecretHash(hash, secret), timelock, token, orderId);
    assert s.post.storage[hash(orderId)].Open();
  }

  /** No duplicate check: creating with an order identifier whose hash is already stored
      replaces that record, even an open or a resolved one, with a fresh open record. A
      resolved escrow can thereby be paid out a second time. */
  lemma ReusedOrderIdOverwrites(l: Ledger, hash: Hasher, sender: Address, receiver: Address, amount: i128,
                                secretHash: Bytes, timelock: u64, token: Address, orderId: Bytes)
    requires hash(orderId) in l.storage
    requires Create(l, hash, sender, receiver, amount, secretHash, timelock, token, orderId).outcome.Ok?
    ensures var s := Create(l, hash, sender, receiver, amount, secretHash, timelock, token, orderId);
            && s.outcome.value == hash(orderId)
            && s.post.storage.Keys == l.storage.Keys
            && s.post.storage[hash(orderId)].Open()
            && s.post.storage[hash(orderId)].amount == amount
  {
  }
}
