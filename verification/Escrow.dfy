/**
 The escrow contract (contracts/escrow/src/lib.rs) over the token it holds in custody.

 `World` is the contract's record together with the balances of every token contract. `Apply` is the
 meaning of one invocation; each method of `EscrowContract` is proved to do exactly what it says.
 */
module Escrow {
  import opened Wrappers
  import opened Balances

  datatype State = Locked | Released | Refunded | Disputed

  datatype Deal = Deal(
    buyer: Address,
    seller: Address,
    arbiter: Address,
    token: Address,
    amount: I128,
    state: State,
    deliveryConfirmed: bool,
    orderRef: string)

  datatype Error = AlreadyInitialized | NotInitialized | InvalidAmount | InvalidState | Unauthorized

  /** `Trap` aborts the invocation: a missing `require_auth`, or a token transfer that cannot be made. */
  datatype Outcome = Ok | Err(error: Error) | Trap

  /** The balances each token contract keeps; a token that is not listed does not exist. */
  type Tokens = map<Address, map<Address, int>>

  datatype World = World(deal: Option<Deal>, tokens: Tokens)

  datatype Call =
    | Initialize(buyer: Address, seller: Address, arbiter: Address, token: Address, amount: I128, orderRef: string)
    | ConfirmDelivery
    | Release
    | Refund
    | Dispute(party: Address)
    /** Anyone else moving a token directly, outside the escrow. */
    | Move(token: Address, from: Address, to: Address, amount: I128)

  // ---------- What one invocation means ----------

  /** A token transfer: refused for a negative amount, missing funds, or a balance beyond i128. */
  predicate CanPay(tokens: Tokens, token: Address, from: Address, to: Address, amount: int) {
    && token in tokens
    && 0 <= amount <= Get(tokens[token], from)
    && Moved(tokens[token], from, to, amount)[to] <= I128_MAX
  }

  function Pay(tokens: Tokens, token: Address, from: Address, to: Address, amount: int): Tokens
    requires CanPay(tokens, token, from, to, amount)
  {
    tokens[token := Moved(tokens[token], from, to, amount)]
  }

  /** `self` is the contract's own address; `auth` holds the addresses that authorized the invocation. */
  function Apply(self: Address, w: World, auth: set<Address>, call: Call): (World, Outcome) {
    match call
    case Initialize(buyer, seller, arbiter, token, amount, orderRef) =>
      if w.deal.Some? then (w, Err(AlreadyInitialized))
      else if amount <= 0 then (w, Err(InvalidAmount))
      else if buyer !in auth || !CanPay(w.tokens, token, buyer, self, amount) then (w, Trap)
      else
        (World(Some(Deal(buyer, seller, arbiter, token, amount, Locked, false, orderRef)),
               Pay(w.tokens, token, buyer, self, amount)), Ok)
    case Move(token, from, to, amount) =>
      if from !in auth || !CanPay(w.tokens, token, from, to, amount) then (w, Trap)
      else (w.(tokens := Pay(w.tokens, token, from, to, amount)), Ok)
    case _ =>
      if w.deal.None? then (w, Err(NotInitialized))
      else ApplyDeal(self, w, w.deal.value, auth, call)
  }

  function ApplyDeal(self: Address, w: World, deal: Deal, auth: set<Address>, call: Call): (World, Outcome)
    requires !call.Initialize? && !call.Move?
  {
    match call
    case ConfirmDelivery =>
      if deal.state != Locked || deal.deliveryConfirmed then (w, Err(InvalidState))
      else if deal.buyer !in auth then (w, Trap)
      else (w.(deal := Some(deal.(deliveryConfirmed := true))), Ok)
    case Release =>
      if deal.state != Disputed && (deal.state != Locked || !deal.deliveryConfirmed) then (w, Err(InvalidState))
      else Settle(self, w, deal, auth, deal.seller, Released)
    case Refund =>
      if deal.state != Locked && deal.state != Disputed then (w, Err(InvalidState))
      else Settle(self, w, deal, auth, deal.buyer, Refunded)
    case Dispute(party) =>
      if deal.state != Locked then (w, Err(InvalidState))
      else if party != deal.buyer && party != deal.seller && party != deal.arbiter then (w, Err(Unauthorized))
      else if party !in auth then (w, Trap)
      else (w.(deal := Some(deal.(state := Disputed))), Ok)
  }

  /** The arbiter pays the whole amount out of custody to `payee`. */
  function Settle(self: Address, w: World, deal: Deal, auth: set<Address>, payee: Address, state: State)
    : (World, Outcome)
  {
    if deal.arbiter !in auth || !CanPay(w.tokens, deal.token, self, payee, deal.amount) then (w, Trap)
    else (World(Some(deal.(state := state)), Pay(w.tokens, deal.token, self, payee, deal.amount)), Ok)
  }

  // ---------- The contracts ----------

  /** The token contracts as the escrow sees them: balances that a transfer rewrites. */
  class TokenLedger {
    var tokens: Tokens

    constructor (tokens: Tokens)
      ensures this.tokens == tokens
    {
      this.tokens := tokens;
    }

    method Transfer(token: Address, from: Address, to: Address, amount: I128) returns (paid: bool)
      modifies this
      ensures paid == CanPay(old(tokens), token, from, to, amount)
      ensures tokens == if paid then Pay(old(tokens), token, from, to, amount) else old(tokens)
    {
      if token !in tokens || amount < 0 { return false; }
      var held := tokens[token];
      if Get(held, from) < amount { return false; }
      held := held[from := Get(held, from) - amount];
      if Get(held, to) + amount > I128_MAX { return false; }
      held := held[to := Get(held, to) + amount];
      tokens := tokens[token := held];
      paid := true;
    }
  }

  class EscrowContract {
    const self: Address
    const bank: TokenLedger
    var deal: Option<Deal>

    function Contents(): World
      reads this, bank
    {
      World(deal, bank.tokens)
    }

    constructor (self: Address, bank: TokenLedger)
      ensures this.self == self && this.bank == bank && deal == None
    {
      this.self, this.bank, this.deal := self, bank, None;
    }

    method Initialize(auth: set<Address>, buyer: Address, seller: Address, arbiter: Address,
                      token: Address, amount: I128, orderRef: string)
      returns (r: Outcome)
      modifies this, bank
      ensures (Contents(), r) == Apply(self, old(Contents()), auth,
                                       Call.Initialize(buyer, seller, arbiter, token, amount, orderRef))
    {
      if deal.Some? { return Err(AlreadyInitialized); }
      if amount <= 0 { return Err(InvalidAmount); }
      if buyer !in auth { return Trap; }
      var paid := bank.Transfer(token, buyer, self, amount);
      if !paid { return Trap; }
      deal := Some(Deal(buyer, seller, arbiter, token, amount, Locked, false, orderRef));
      r := Ok;
    }

    method ConfirmDelivery(auth: set<Address>) returns (r: Outcome)
      modifies this
      ensures (Contents(), r) == Apply(self, old(Contents()), auth, Call.ConfirmDelivery)
    {
      if deal.None? { return Err(NotInitialized); }
      if deal.value.state != Locked || deal.value.deliveryConfirmed { return Err(InvalidState); }
      if deal.value.buyer !in auth { return Trap; }
      deal := Some(deal.value.(deliveryConfirmed := true));
      r := Ok;
    }

    method Release(auth: set<Address>) returns (r: Outcome)
      modifies this, bank
      ensures (Contents(), r) == Apply(self, old(Contents()), auth, Call.Release)
    {
      if deal.None? { return Err(NotInitialized); }
      var record := deal.value;
      if record.state != Disputed && (record.state != Locked || !record.deliveryConfirmed) { return Err(InvalidState); }
      if record.arbiter !in auth { return Trap; }
      var paid := bank.Transfer(record.token, self, record.seller, record.amount);
      if !paid { return Trap; }
      deal := Some(record.(state := Released));
      r := Ok;
    }

    method Refund(auth: set<Address>) returns (r: Outcome)
      modifies this, bank
      ensures (Contents(), r) == Apply(self, old(Contents()), auth, Call.Refund)
    {
      if deal.None? { return Err(NotInitialized); }
      var record := deal.value;
      if record.state != Locked && record.state != Disputed { return Err(InvalidState); }
      if record.arbiter !in auth { return Trap; }
      var paid := bank.Transfer(record.token, self, record.buyer, record.amount);
      if !paid { return Trap; }
      deal := Some(record.(state := Refunded));
      r := Ok;
    }

    method Dispute(auth: set<Address>, party: Address) returns (r: Outcome)
      modifies this
      ensures (Contents(), r) == Apply(self, old(Contents()), auth, Call.Dispute(party))
    {
      if deal.None? { return Err(NotInitialized); }
      if deal.value.state != Locked { return Err(InvalidState); }
      if party != deal.value.buyer && party != deal.value.seller && party != deal.value.arbiter {
        return Err(Unauthorized);
      }
      if party !in auth { return Trap; }
      deal := Some(deal.value.(state := Disputed));
      r := Ok;
    }
  }
}
