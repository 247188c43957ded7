/** Sequences of contract invocations. Between any two successful resolutions of one
    identifier there must be a successful create that reuses it: without such a create,
    withdraw and cancel together pay an escrow out at most once. */
module Trace {
  import opened HtlcTypes
  import opened Token
  import opened EscrowLedger
  import Lifecycle

  /** One invocation of an entry point that can change the ledger, or the ledger clock
      moving on between invocations. */
  datatype Call =
    | CreateCall(sender: Address, receiver: Address, amount: i128, secretHash: Bytes,
                 timelock: u64, token: Address, orderId: Bytes)
    | WithdrawCall(id: Bytes, secret: Bytes, receiver: Address)
    | CancelCall(id: Bytes, sender: Address)
    | Advance(time: u64)

  function Next(l: Ledger, hash: Hasher, c: Call): Ledger {
    match c
    case CreateCall(sender, receiver, amount, secretHash, timelock, token, orderId) =>
      Create(l, hash, sender, receiver, amount, secretHash, timelock, token, orderId).post
    case WithdrawCall(id, secret, receiver) => Withdraw(l, hash, id, secret, receiver).post
    case CancelCall(id, sender) => Cancel(l, id, sender).post
    case Advance(time) => if l.now < time then l.(now := time) else l
  }

  function Run(l: Ledger, hash: Hasher, calls: seq<Call>): Ledger
    decreases |calls|
  {
    if calls == [] then l else Run(Next(l, hash, calls[0]), hash, calls[1..])
  }

  /** The call resolves `id` successfully, paying out its amount. */
  predicate Resolves(l: Ledger, hash: Hasher, c: Call, id: Bytes) {
    match c
    case WithdrawCall(i, secret, receiver) => i == id && Withdraw(l, hash, i, secret, receiver).outcome.Ok?
    case CancelCall(i, sender) => i == id && Cancel(l, i, sender).outcome.Ok?
    case _ => false
  }

  /** The call would write a fresh record under `id`. */
  predicate Targets(hash: Hasher, c: Call, id: Bytes) {
    c.CreateCall? && hash(c.orderId) == id
  }

  predicate Resolved(l: Ledger, id: Bytes) {
    id in l.storage && !l.storage[id].Open()
  }

  /** The number of calls of the run that resolve `id` successfully. */
  function Resolutions(l: Ledger, hash: Hasher, calls: seq<Call>, id: Bytes): nat
    decreases |calls|
  {
    if calls == [] then 0
    else
      (if Resolves(l, hash, calls[0], id) then 1 else 0)
        + Resolutions(Next(l, hash, calls[0]), hash, calls[1..], id)
  }

  /** One call that does not create under `id`: a successful resolution of `id` needs the
      record unresolved and leaves it resolved; anything else leaves a resolved record
      resolved. */
  lemma NextOnRecord(l: Ledger, hash: Hasher, c: Call, id: Bytes)
    requires !Targets(hash, c, id)
    ensures Resolves(l, hash, c, id) ==> !Resolved(l, id) && Resolved(Next(l, hash, c), id)
    ensures Resolved(l, id) ==> Resolved(Next(l, hash, c), id)
  {
    if Resolves(l, hash, c, id) {
      assert Next(l, hash, c).storage[id] == l.storage[id].(withdrawn := c.WithdrawCall?, cancelled := c.CancelCall?);
    }
  }

  /** Without a create that reuses `id`, at most one call of any run resolves `id`, and
      none does if it was resolved before the run started. */
  lemma {:induction false} AtMostOneResolution(l: Ledger, hash: Hasher, calls: seq<Call>, id: Bytes)
    requires forall i :: 0 <= i < |calls| ==> !Targets(hash, calls[i], id)
    ensures Resolutions(l, hash, calls, id) + (if Resolved(l, id) then 1 else 0) <= 1
    decreases |calls|
  {
    if calls != [] {
      NextOnRecord(l, hash, calls[0], id);
      AtMostOneResolution(Next(l, hash, calls[0]), hash, calls[1..], id);
    }
  }

  /** Every run keeps the invariant: no record ever has both terminal flags set, and no
      stored amount is negative. */
  lemma {:induction false} RunPreservesInvariant(l: Ledger, hash: Hasher, calls: seq<Call>)
    requires Invariant(l)
    ensures Invariant(Run(l, hash, calls))
    decreases |calls|
  {
    if calls != [] {
      var c := calls[0];
      match c {
      case CreateCall(sender, receiver, amount, secretHash, timelock, token, orderId) =>
        Lifecycle.CreatePreservesInvariant(l, hash, sender, receiver, amount, secretHash, timelock, token, orderId);
      case WithdrawCall(id, secret, receiver) =>
        Lifecycle.WithdrawPreservesInvariant(l, hash, id, secret, receiver);
      case CancelCall(id, sender) =>
        Lifecycle.CancelPreservesInvariant(l, id, sender);
      case Advance(time) =>
      }
      RunPreservesInvariant(Next(l, hash, c), hash, calls[1..]);
    }
  }

  /** The hazard of the missing duplicate check: once `id` is resolved, a successful
      create that reuses its order identifier opens it again, so a second payout of the
      same identifier becomes possible. */
  lemma ReuseReopens(l: Ledger, hash: Hasher, c: Call, id: Bytes)
    requires Resolved(l, id)
    requires Targets(hash, c, id)
    requires Create(l, hash, c.sender, c.receiver, c.amount, c.secretHash, c.timelock, c.token, c.orderId).outcome.Ok?
    ensures !Resolved(Next(l, hash, c), id) && id in Next(l, hash, c).storage
  {
  }
}
