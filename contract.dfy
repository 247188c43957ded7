/** The deployed contract with the host state it works on: the persistent store, the token
    balances and the ledger clock are fields that the entry points update step by step,
    in the order the contract performs them. Each entry point is specified by the function
    of the same name in EscrowLedger, whose properties Lifecycle, Custody and Trace prove. */
module Contract {
  import opened HtlcTypes
  import opened Token
  import opened EscrowLedger
  import Lifecycle

  class HtlcEscrow {
    var storage: map<Bytes, Escrow>
    var balances: Balances
    /** The ledger timestamp seen by the current invocation; the host advances it. */
    var now: u64
    const contract: Address
    const hash: Hasher

    function State(): Ledger
      reads this
    {
      Ledger(storage, balances, now, contract)
    }

    ghost predicate Valid()
      reads this
    {
      Invariant(State())
    }

    /** A freshly deployed contract: nothing stored yet. */
    constructor (contract: Address, hash: Hasher, balances: Balances, now: u64)
      requires NonNegative(balances)
      ensures Valid()
      ensures State() == Ledger(map[], balances, now, contract) && this.hash == hash
    {
      this.storage := map[];
      this.balances := balances;
      this.now := now;
      this.contract := contract;
      this.hash := hash;
    }

    method CreateEscrow(sender: Address, receiver: Address, amount: i128, secretHash: Bytes,
                        timelock: u64, token: Address, orderId: Bytes) returns (r: Outcome<Bytes>)
      requires Valid()
      modifies this
      ensures Valid()
      ensures Step(r, State()) == Create(old(State()), hash, sender, receiver, amount, secretHash, timelock, token, orderId)
    {
      Lifecycle.CreatePreservesInvariant(State(), hash, sender, receiver, amount, secretHash, timelock, token, orderId);
      var currentTime := now;
      if timelock <= currentTime {
        return Err(InvalidTimelock);
      }
      var id := hash(orderId);
      if BalanceOf(balances, token, sender) < amount as int {
        return Err(InsufficientBalance);
      }
      // The tokens move before the record is written.
      var moved := Transfer(balances, token, sender, contract, amount as int);
      if moved.None? {
        return Trap;
      }
      balances := moved.value;
      var escrow := Escrow(sender, receiver, amount, secretHash, timelock, token, orderId, false, false, currentTime);
      storage := storage[id := escrow];
      r := Ok(id);
    }

    method Withdraw(id: Bytes, secret: Bytes, receiver: Address) returns (r: Outcome<()>)
      requires Valid()
      modifies this
      ensures Valid()
      ensures Step(r, State()) == EscrowLedger.Withdraw(old(State()), hash, id, secret, receiver)
    {
      Lifecycle.WithdrawPreservesInvariant(State(), hash, id, secret, receiver);
      if id !in storage {
        return Err(EscrowNotFound);
      }
      var escrow := storage[id];
      if escrow.withdrawn {
        return Err(AlreadyWithdrawn);
      }
      if escrow.cancelled {
        return Err(AlreadyCancelled);
      }
      if hash(secret) != escrow.secretHash {
        return Err(InvalidSecret);
      }
      if receiver != escrow.receiver {
        return Err(UnauthorizedAccess);
      }
      // The flag is persisted before the payout is attempted.
      var snapshot := storage;
      escrow := escrow.(withdrawn := true);
      storage := storage[id := escrow];
      var moved := Transfer(balances, escrow.tokenAddress, contract, receiver, escrow.amount as int);
      if moved.None? {
        // The token contract traps; the host discards every write of this invocation.
        storage := snapshot;
        return Trap;
      }
      balances := moved.value;
      r := Ok(());
    }

    method Cancel(id: Bytes, sender: Address) returns (r: Outcome<()>)
      requires Valid()
      modifies this
      ensures Valid()
      ensures Step(r, State()) == EscrowLedger.Cancel(old(State()), id, sender)
    {
      Lifecycle.CancelPreservesInvariant(State(), id, sender);
      if id !in storage {
        return Err(EscrowNotFound);
      }
      var escrow := storage[id];
      if escrow.withdrawn {
        return Err(AlreadyWithdrawn);
      }
      if escrow.cancelled {
        return Err(AlreadyCancelled);
      }
      var currentTime := now;
      if currentTime < escrow.timelock {
        return Err(TimelockNotExpired);
      }
      if sender != escrow.sender {
        return Err(UnauthorizedAccess);
      }
      // The flag is persisted before the refund is attempted.
      var snapshot := storage;
      escrow := escrow.(cancelled := true);
      storage := storage[id := escrow];
      var moved := Transfer(balances, escrow.tokenAddress, contract, sender, escrow.amount as int);
      if moved.None? {
        // The token contract traps; the host discards every write of this invocation.
        storage := snapshot;
        return Trap;
      }
      balances := moved.value;
      r := Ok(());
    }
  }
}
