/** End-to-end runs of the contract: an escrow of 100 with a deadline ten seconds out,
    resolved by the receiver before the deadline or refunded after it, and a creation the
    sender cannot fund. */
module Scenarios {
  import opened HtlcTypes
  import opened Token
  import opened EscrowLedger

  /** Created at T with deadline T+10; at T+5 it cannot be cancelled, the receiver
      withdraws with the right secret and 100 moves from the contract to the receiver;
      a later cancel by the sender is refused with `AlreadyWithdrawn`. */
  lemma WithdrawBeforeDeadline(l: Ledger, hash: Hasher, sender: Address, receiver: Address,
                               secret: Bytes, token: Address, orderId: Bytes)
    requires Invariant(l)
    requires l.now as int + 10 < 0x1_0000_0000_0000_0000
    requires sender != l.contract && receiver != l.contract
    requires BalanceOf(l.balances, token, sender) >= 100
    ensures var id := hash(orderId);
            var c := Create(l, hash, sender, receiver, 100, hash(secret), l.now + 10, token, orderId);
            var atFive := c.post.(now := l.now + 5);
            var w := Withdraw(atFive, hash, id, secret, receiver);
            && c.outcome == Ok(id)
            && !CanCancel(atFive, id)
            && w.outcome == Ok(())
            && BalanceOf(w.post.balances, token, receiver) == BalanceOf(c.post.balances, token, receiver) + 100
            && BalanceOf(w.post.balances, token, l.contract) == BalanceOf(c.post.balances, token, l.contract) - 100
            && Cancel(w.post, id, sender).outcome == Err(AlreadyWithdrawn)
  {
    var id := hash(orderId);
    var c := Create(l, hash, sender, receiver, 100, hash(secret), l.now + 10, token, orderId);
    assert c.post.storage[id].Open();
    assert BalanceOf(l.balances, token, l.contract) >= 0;
    assert BalanceOf(c.post.balances, token, l.contract) >= 100;
    var atFive := c.post.(now := l.now + 5);
    var w := Withdraw(atFive, hash, id, secret, receiver);
    assert w.post.storage[id].withdrawn;
  }

  /** Created at T with deadline T+10; at T+11 the sender cancels, gets back exactly the
      balance it had before creating, and a later withdraw with the right secret is
      refused with `AlreadyCancelled`. */
  lemma RefundAfterDeadline(l: Ledger, hash: Hasher, sender: Address, receiver: Address,
                            secret: Bytes, token: Address, orderId: Bytes)
    requires Invariant(l)
    requires l.now as int + 11 < 0x1_0000_0000_0000_0000
    requires sender != l.contract
    requires BalanceOf(l.balances, token, sender) >= 100
    ensures var id := hash(orderId);
            var c := Create(l, hash, sender, receiver, 100, hash(secret), l.now + 10, token, orderId);
            var atEleven := c.post.(now := l.now + 11);
            var k := Cancel(atEleven, id, sender);
            && c.outcome == Ok(id)
            && CanCancel(atEleven, id)
            && k.outcome == Ok(())
            && BalanceOf(k.post.balances, token, sender) == BalanceOf(l.balances, token, sender)
            && BalanceOf(k.post.balances, token, l.contract) == BalanceOf(l.balances, token, l.contract)
            && Withdraw(k.post, hash, id, secret, receiver).outcome == Err(AlreadyCancelled)
  {
    var id := hash(orderId);
    var c := Create(l, hash, sender, receiver, 100, hash(secret), l.now + 10, token, orderId);
    assert c.post.storage[id].Open();
    assert BalanceOf(l.balances, token, l.contract) >= 0;
    assert BalanceOf(c.post.balances, token, l.contract) >= 100;
    var atEleven := c.post.(now := l.now + 11);
    var k := Cancel(atEleven, id, sender);
    assert k.post.storage[id].cancelled && !k.post.storage[id].withdrawn;
  }

  /** A sender holding 50 cannot lock 100: the create is refused with
      `InsufficientBalance`, nothing is stored and no balance moves. */
  lemma UnfundedCreate(l: Ledger, hash: Hasher, sender: Address, receiver: Address,
                       secretHash: Bytes, timelock: u64, token: Address, orderId: Bytes)
    requires l.now < timelock
    requires BalanceOf(l.balances, token, sender) == 50
    ensures Create(l, hash, sender, receiver, 100, secretHash, timelock, token, orderId) == Step(Err(InsufficientBalance), l)
  {
  }

  /** The deadline itself is not in the future: a timelock equal to the clock is refused. */
  lemma DeadlineAtNowRejected(l: Ledger, hash: Hasher, sender: Address, receiver: Address, amount: i128,
                              secretHash: Bytes, token: Address, orderId: Bytes)
    ensures Create(l, hash, sender, receiver, amount, secretHash, l.now, token, orderId) == Step(Err(InvalidTimelock), l)
  {
  }
}
