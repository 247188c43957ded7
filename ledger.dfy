/** The escrow ledger as a value: the persistent record store, the token balances, the
    ledger clock and the contract's own address. Each contract entry point is a function
    from the ledger before the invocation to its outcome and the ledger after it. */
module EscrowLedger {
  import opened HtlcTypes
  import opened Token

  datatype Ledger = Ledger(
    storage: map<Bytes, Escrow>,
    balances: Balances,
    now: u64,
    contract: Address)

  /** What one invocation returns, and the ledger it leaves behind. */
  datatype Step<T> = Step(outcome: Outcome<T>, post: Ledger)

  /** keccak256 of the host: used for escrow identifiers and secret commitments alike.
      Nothing is assumed about it. */
  type Hasher = Bytes -> Bytes

  /** Every stored record has at most one terminal flag set and a non-negative amount,
      and no token balance is negative. */
  ghost predicate Invariant(l: Ledger) {
    && (forall id :: id in l.storage ==> WellFormed(l.storage[id]))
    && NonNegative(l.balances)
  }

  predicate WellFormed(e: Escrow) {
    !(e.withdrawn && e.cancelled) && e.amount >= 0
  }

  /** The record a successful `create_escrow` stores. */
  function NewEscrow(l: Ledger, sender: Address, receiver: Address, amount: i128, secretHash: Bytes,
                     timelock: u64, token: Address, orderId: Bytes): Escrow
  {
    Escrow(sender, receiver, amount, secretHash, timelock, token, orderId, false, false, l.now)
  }

  /** `create_escrow`: rejects a timelock that is not in the future, then a sender whose
      balance is below `amount`; otherwise moves `amount` from the sender to the contract
      and stores a fresh open record under `hash(orderId)`, overwriting whatever was
      stored there. */
  function Create(l: Ledger, hash: Hasher, sender: Address, receiver: Address, amount: i128,
                  secretHash: Bytes, timelock: u64, token: Address, orderId: Bytes): (s: Step<Bytes>)
    ensures s.outcome == Err(InvalidTimelock) <==> timelock <= l.now
    ensures s.outcome == Err(InsufficientBalance) <==>
              l.now < timelock && BalanceOf(l.balances, token, sender) < amount as int
    ensures s.outcome == Trap <==>
              l.now < timelock && amount as int <= BalanceOf(l.balances, token, sender) && amount < 0
    ensures s.outcome.Err? ==> s.outcome.error in {InvalidTimelock, InsufficientBalance}
    ensures !s.outcome.Ok? ==> s.post == l
    ensures s.outcome.Ok? ==>
              && s.outcome.value == hash(orderId)
              && s.post.storage == l.storage[hash(orderId) := NewEscrow(l, sender, receiver, amount, secretHash, timelock, token, orderId)]
              && s.post.now == l.now && s.post.contract == l.contract
              && Transfer(l.balances, token, sender, l.contract, amount as int) == Some(s.post.balances)
  {
    if timelock <= l.now then
      Step(Err(InvalidTimelock), l)
    else
      var id := hash(orderId);
      if BalanceOf(l.balances, token, sender) < amount as int then
        Step(Err(InsufficientBalance), l)
      else
        match Transfer(l.balances, token, sender, l.contract, amount as int)
        case None => Step(Trap, l)
        case Some(moved) =>
          var e := NewEscrow(l, sender, receiver, amount, secretHash, timelock, token, orderId);
          Step(Ok(id), l.(storage := l.storage[id := e], balances := moved))
  }

  /** `withdraw`: the checks run in the order not found, already withdrawn, already
      cancelled, wrong secret, wrong receiver, and the first that fails is reported. On
      success only the record's `withdrawn` flag changes and the amount moves from the
      contract to the receiver. There is no time check. */
  function Withdraw(l: Ledger, hash: Hasher, id: Bytes, secret: Bytes, receiver: Address): (s: Step<()>)
    ensures s.outcome == Err(EscrowNotFound) <==> id !in l.storage
    ensures s.outcome == Err(AlreadyWithdrawn) <==> id in l.storage && l.storage[id].withdrawn
    ensures s.outcome == Err(AlreadyCancelled) <==>
              id in l.storage && !l.storage[id].withdrawn && l.storage[id].cancelled
    ensures s.outcome == Err(InvalidSecret) <==>
              id in l.storage && l.storage[id].Open() && hash(secret) != l.storage[id].secretHash
    ensures s.outcome == Err(UnauthorizedAccess) <==>
              && id in l.storage && l.storage[id].Open() && hash(secret) == l.storage[id].secretHash
              && receiver != l.storage[id].receiver
    ensures s.outcome == Trap <==>
              && id in l.storage && l.storage[id].Open() && hash(secret) == l.storage[id].secretHash
              && receiver == l.storage[id].receiver
              && Transfer(l.balances, l.storage[id].tokenAddress, l.contract, receiver, l.storage[id].amount as int).None?
    ensures s.outcome.Err? ==> s.outcome.error !in {TimelockNotExpired, InsufficientBalance, InvalidTimelock}
    ensures !s.outcome.Ok? ==> s.post == l
    ensures s.outcome.Ok? ==>
              var e := l.storage[id];
              && e.Open() && hash(secret) == e.secretHash && receiver == e.receiver
              && s.post.storage == l.storage[id := e.(withdrawn := true)]
              && s.post.now == l.now && s.post.contract == l.contract
              && Transfer(l.balances, e.tokenAddress, l.contract, receiver, e.amount as int) == Some(s.post.balances)
  {
    if id !in l.storage then Step(Err(EscrowNotFound), l)
    else
      var e := l.storage[id];
      if e.withdrawn then Step(Err(AlreadyWithdrawn), l)
      else if e.cancelled then Step(Err(AlreadyCancelled), l)
      else if hash(secret) != e.secretHash then Step(Err(InvalidSecret), l)
      else if receiver != e.receiver then Step(Err(UnauthorizedAccess), l)
      else
        match Transfer(l.balances, e.tokenAddress, l.contract, receiver, e.amount as int)
        case None => Step(Trap, l)
        case Some(moved) =>
          Step(Ok(()), l.(storage := l.storage[id := e.(withdrawn := true)], balances := moved))
  }

  /** `cancel`: the checks run in the order not found, already withdrawn, already
      cancelled, deadline not reached (`now < timelock`), wrong sender. On success only
      the record's `cancelled` flag changes and the amount is refunded to the sender. */
  function Cancel(l: Ledger, id: Bytes, sender: Address): (s: Step<()>)
    ensures s.outcome == Err(EscrowNotFound) <==> id !in l.storage
    ensures s.outcome == Err(AlreadyWithdrawn) <==> id in l.storage && l.storage[id].withdrawn
    ensures s.outcome == Err(AlreadyCancelled) <==>
              id in l.storage && !l.storage[id].withdrawn && l.storage[id].cancelled
    ensures s.outcome == Err(TimelockNotExpired) <==>
              id in l.storage && l.storage[id].Open() && l.now < l.storage[id].timelock
    ensures s.outcome == Err(UnauthorizedAccess) <==>
              && id in l.storage && l.storage[id].Open() && l.storage[id].timelock <= l.now
              && sender != l.storage[id].sender
    ensures s.outcome == Trap <==>
              && id in l.storage && l.storage[id].Open() && l.storage[id].timelock <= l.now
              && sender == l.storage[id].sender
              && Transfer(l.balances, l.storage[id].tokenAddress, l.contract, sender, l.storage[id].amount as int).None?
    ensures s.outcome.Err? ==> s.outcome.error !in {InvalidSecret, InsufficientBalance, InvalidTimelock}
    ensures !s.outcome.Ok? ==> s.post == l
    ensures s.outcome.Ok? ==>
              var e := l.storage[id];
              && e.Open() && e.timelock <= l.now && sender == e.sender
              && s.post.storage == l.storage[id := e.(cancelled := true)]
              && s.post.now == l.now && s.post.contract == l.contract
              && Transfer(l.balances, e.tokenAddress, l.contract, sender, e.amount as int) == Some(s.post.balances)
  {
    if id !in l.storage then Step(Err(EscrowNotFound), l)
    else
      var e := l.storage[id];
      if e.withdrawn then Step(Err(AlreadyWithdrawn), l)
      else if e.cancelled then Step(Err(AlreadyCancelled), l)
      else if l.now < e.timelock then Step(Err(TimelockNotExpired), l)
      else if sender != e.sender then Step(Err(UnauthorizedAccess), l)
      else
        match Transfer(l.balances, e.tokenAddress, l.contract, sender, e.amount as int)
        case None => Step(Trap, l)
        case Some(moved) =>
          Step(Ok(()), l.(storage := l.storage[id := e.(cancelled := true)], balances := moved))
  }

  /** `get_escrow`: the stored record, if any. */
  function GetEscrow(l: Ledger, id: Bytes): (r: Option<Escrow>)
    ensures r.Some? <==> id in l.storage
    ensures r.Some? ==> r.value == l.storage[id]
  {
    if id in l.storage then Some(l.storage[id]) else None
  }

  /** `verify_secret`: whether the secret opens the record's commitment; false for an
      unknown identifier, and blind to the record's terminal flags. */
  function VerifySecret(l: Ledger, hash: Hasher, id: Bytes, secret: Bytes): (ok: bool)
    ensures ok <==> id in l.storage && hash(secret) == l.storage[id].secretHash
  {
    match GetEscrow(l, id)
    case Some(e) => hash(secret) == e.secretHash
    case None => false
  }

  /** `can_cancel`: the record exists, is unresolved and its deadline has been reached. */
  function CanCancel(l: Ledger, id: Bytes): (ok: bool)
    ensures ok <==> id in l.storage && l.storage[id].Open() && l.storage[id].timelock <= l.now
  {
    match GetEscrow(l, id)
    case Some(e) => !e.withdrawn && !e.cancelled && l.now >= e.timelock
    case None => false
  }

  /** `generate_secret_hash`: the commitment a creator should store for a secret. Any
      record that stores it as its commitment is opened by that secret. */
  function GenerateSecretHash(hash: Hasher, secret: Bytes): (r: Bytes)
    ensures forall l: Ledger, id: Bytes :: id in l.storage && l.storage[id].secretHash == r ==>
              VerifySecret(l, hash, id, secret)
  {
    hash(secret)
  }
}
