/** The fungible-token collaborator, seen only through its interface: a balance per
    (token, holder) pair and a transfer that either moves the amount or traps. */
module Token {
  import opened HtlcTypes

  /** Balances keyed by (token address, holder address); a missing key is a zero balance. */
  type Balances = map<(Address, Address), int>

  function BalanceOf(b: Balances, token: Address, holder: Address): int
  {
    if (token, holder) in b then b[(token, holder)] else 0
  }

  /** `transfer(from, to, amount)` of the token contract. It refuses (None, which the
      calling contract experiences as a trap) a negative amount or an amount above the
      payer's balance; otherwise it debits the payer and credits the payee and touches
      no other balance. */
  function Transfer(b: Balances, token: Address, from: Address, to: Address, amount: int): (r: Option<Balances>)
    ensures r.Some? <==> 0 <= amount <= BalanceOf(b, token, from)
    ensures r.Some? && from != to ==>
              && BalanceOf(r.value, token, from) == BalanceOf(b, token, from) - amount
              && BalanceOf(r.value, token, to) == BalanceOf(b, token, to) + amount
    ensures r.Some? && from == to ==> BalanceOf(r.value, token, from) == BalanceOf(b, token, from)
    ensures r.Some? ==>
              forall t, h :: (t, h) != (token, from) && (t, h) != (token, to) ==>
                BalanceOf(r.value, t, h) == BalanceOf(b, t, h)
  {
    if 0 <= amount <= BalanceOf(b, token, from) then
      var debited := b[(token, from) := BalanceOf(b, token, from) - amount];
      Some(debited[(token, to) := BalanceOf(debited, token, to) + amount])
    else
      None
  }

  /** The token contract never lets a balance go below zero. */
  ghost predicate NonNegative(b: Balances) {
    forall k :: k in b ==> b[k] >= 0
  }
}
