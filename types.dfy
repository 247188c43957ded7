/** Values of the HTLC escrow contract: the stored record, the closed error enumeration,
    the integer widths of the contract interface, and the outcome of one invocation. */
module HtlcTypes {

  /** Raw bytes: a `Bytes` value of the host, or the UTF-8 bytes of a host `String`. */
  type Bytes = seq<bv8>

  /** Ledger timestamps and timelocks are unsigned 64-bit integers. */
  newtype u64 = x: int | 0 <= x < 0x1_0000_0000_0000_0000

  /** Token amounts are signed 128-bit integers. */
  newtype i128 = x: int | -0x8000_0000_0000_0000_0000_0000_0000_0000 <= x < 0x8000_0000_0000_0000_0000_0000_0000_0000

  /** An account or contract address; only its identity matters here. */
  datatype Address = Address(raw: Bytes)

  /** One escrow record as persisted under its identifier. */
  datatype Escrow = Escrow(
    sender: Address,
    receiver: Address,
    amount: i128,
    secretHash: Bytes,
    timelock: u64,
    tokenAddress: Address,
    orderId: Bytes,
    withdrawn: bool,
    cancelled: bool,
    createdAt: u64)
  {
    /** Neither resolution has happened yet. */
    predicate Open() {
      !withdrawn && !cancelled
    }
  }

  /** The contract's closed error enumeration. */
  datatype HtlcError =
    | EscrowNotFound
    | AlreadyWithdrawn
    | AlreadyCancelled
    | InvalidSecret
    | TimelockNotExpired
    | UnauthorizedAccess
    | InsufficientBalance
    | InvalidTimelock

  /** The `u32` discriminant each error carries across the contract interface. */
  function Code(e: HtlcError): (c: nat)
    ensures 1 <= c <= 8
  {
    match e
    case EscrowNotFound => 1
    case AlreadyWithdrawn => 2
    case AlreadyCancelled => 3
    case InvalidSecret => 4
    case TimelockNotExpired => 5
    case UnauthorizedAccess => 6
    case InsufficientBalance => 7
    case InvalidTimelock => 8
  }

  /** Distinct errors are reported under distinct codes. */
  lemma CodeInjective(a: HtlcError, b: HtlcError)
    ensures Code(a) == Code(b) <==> a == b
  {
  }

  /** The result of one contract invocation: a value, one of the contract's errors, or a
      trap raised by a foreign call (the token contract), which aborts the invocation. */
  datatype Outcome<T> = Ok(value: T) | Err(error: HtlcError) | Trap

  datatype Option<T> = None | Some(value: T)
}
