/**
 Custody over every run: any sequence of escrow invocations, with anyone else moving tokens freely
 in between. Nobody holds the contract's own key, so no invocation is authorized by `self`.
 */
module EscrowRuns {
  import opened Wrappers
  import opened Balances
  import opened Escrow

  datatype Step = Step(auth: set<Address>, call: Call)

  function Run(self: Address, w: World, steps: seq<Step>): World
    decreases |steps|
  {
    if steps == [] then w
    else
      var last := steps[|steps| - 1];
      Apply(self, Run(self, w, steps[..|steps| - 1]), last.auth, last.call).0
  }

  function OutcomeAt(self: Address, w: World, steps: seq<Step>, i: nat): Outcome
    requires i < |steps|
  {
    Apply(self, Run(self, w, steps[..i]), steps[i].auth, steps[i].call).1
  }

  /** No step is signed with the contract's own address. */
  ghost predicate Unforged(self: Address, steps: seq<Step>) {
    forall s :: s in steps ==> self !in s.auth
  }

  lemma {:induction false} RunFrom(self: Address, w: World, steps: seq<Step>, i: nat)
    requires i <= |steps|
    ensures Run(self, w, steps) == Run(self, Run(self, w, steps[..i]), steps[i..])
    decreases |steps|
  {
    var n := |steps|;
    if i < n {
      RunFrom(self, w, steps[..n - 1], i);
      assert steps[..n - 1][..i] == steps[..i];
      assert steps[i..][..n - i - 1] == steps[..n - 1][i..];
      assert steps[i..][n - i - 1] == steps[n - 1];
    } else {
      assert steps[..i] == steps;
    }
  }

  // ---------- Custody ----------

  ghost predicate Sound(m: map<Address, int>) {
    NonNegative(m) && Total(m) <= I128_MAX
  }

  /** The deal has not been settled yet, so the amount must still be in custody. */
  predicate Open(deal: Deal) {
    deal.state == Locked || deal.state == Disputed
  }

  ghost predicate CustodyInv(self: Address, w: World) {
    && (forall t :: t in w.tokens ==> Sound(w.tokens[t]))
    && (w.deal.Some? ==>
          && 0 < w.deal.value.amount
          && w.deal.value.token in w.tokens
          && (Open(w.deal.value) ==> w.deal.value.amount <= Get(w.tokens[w.deal.value.token], self)))
  }

  lemma PayKeepsSound(tokens: Tokens, token: Address, from: Address, to: Address, amount: int)
    requires forall t :: t in tokens ==> Sound(tokens[t])
    requires CanPay(tokens, token, from, to, amount)
    ensures forall t :: t in Pay(tokens, token, from, to, amount) ==> Sound(Pay(tokens, token, from, to, amount)[t])
  {
    MovedKeepsTotal(tokens[token], from, to, amount);
  }

  lemma StepKeepsCustody(self: Address, w: World, auth: set<Address>, call: Call)
    requires CustodyInv(self, w) && self !in auth
    ensures CustodyInv(self, Apply(self, w, auth, call).0)
  {
    var (after, outcome) := Apply(self, w, auth, call);
    if outcome.Ok? {
      match call
      case Initialize(buyer, _, _, token, amount, _) => PayKeepsSound(w.tokens, token, buyer, self, amount);
      case Move(token, from, to, amount) => PayKeepsSound(w.tokens, token, from, to, amount);
      case Release => var d := w.deal.value; PayKeepsSound(w.tokens, d.token, self, d.seller, d.amount);
      case Refund => var d := w.deal.value; PayKeepsSound(w.tokens, d.token, self, d.buyer, d.amount);
      case _ =>
    }
  }

  lemma {:induction false} RunKeepsCustody(self: Address, w: World, steps: seq<Step>)
    requires CustodyInv(self, w) && Unforged(self, steps)
    ensures CustodyInv(self, Run(self, w, steps))
    decreases |steps|
  {
    if steps != [] {
      var n := |steps| - 1;
      assert forall s :: s in steps[..n] ==> s in steps;
      RunKeepsCustody(self, w, steps[..n]);
      assert steps[n] in steps;
      StepKeepsCustody(self, Run(self, w, steps[..n]), steps[n].auth, steps[n].call);
    }
  }

  /** An open deal can always be paid: neither funds nor i128 can fail, for any payee. */
  lemma OpenDealIsPayable(self: Address, w: World, payee: Address)
    requires CustodyInv(self, w) && w.deal.Some? && Open(w.deal.value)
    ensures CanPay(w.tokens, w.deal.value.token, self, payee, w.deal.value.amount)
  {
    EntriesBelowTotal(w.tokens[w.deal.value.token], self, payee);
  }

  /**
   Release and refund fail only for the reasons the contract names: there is no deal, the state does
   not permit it, or the arbiter has not signed. Lack of funds is never one of them.
   */
  lemma SettlementOnlyNeedsTheArbiter(self: Address, w: World, steps: seq<Step>, auth: set<Address>)
    requires CustodyInv(self, w) && Unforged(self, steps)
    ensures var u := Run(self, w, steps);
            && (Apply(self, u, auth, Release).1.Ok? <==>
                  u.deal.Some? && u.deal.value.arbiter in auth &&
                  (u.deal.value.state == Disputed || (u.deal.value.state == Locked && u.deal.value.deliveryConfirmed)))
            && (Apply(self, u, auth, Refund).1.Ok? <==>
                  u.deal.Some? && u.deal.value.arbiter in auth && Open(u.deal.value))
  {
    RunKeepsCustody(self, w, steps);
    var u := Run(self, w, steps);
    if u.deal.Some? && Open(u.deal.value) {
      OpenDealIsPayable(self, u, u.deal.value.seller);
      OpenDealIsPayable(self, u, u.deal.value.buyer);
    }
  }

  /** No run creates or destroys units of any token. */
  lemma {:induction false} SupplyIsConserved(self: Address, w: World, steps: seq<Step>, token: Address)
    requires token in w.tokens
    ensures token in Run(self, w, steps).tokens
    ensures Total(Run(self, w, steps).tokens[token]) == Total(w.tokens[token])
    decreases |steps|
  {
    if steps != [] {
      var n := |steps| - 1;
      SupplyIsConserved(self, w, steps[..n], token);
      var u, call := Run(self, w, steps[..n]), steps[n].call;
      match call
      case Initialize(buyer, _, _, t, amount, _) => TransferKeepsSupply(u.tokens, t, buyer, self, amount, token);
      case Move(t, from, to, amount) => TransferKeepsSupply(u.tokens, t, from, to, amount, token);
      case Release =>
        if u.deal.Some? {
          var d := u.deal.value;
          TransferKeepsSupply(u.tokens, d.token, self, d.seller, d.amount, token);
        }
      case Refund =>
        if u.deal.Some? {
          var d := u.deal.value;
          TransferKeepsSupply(u.tokens, d.token, self, d.buyer, d.amount, token);
        }
      case _ =>
    }
  }

  lemma TransferKeepsSupply(tokens: Tokens, t: Address, from: Address, to: Address, amount: int, token: Address)
    requires token in tokens
    ensures CanPay(tokens, t, from, to, amount) ==>
              token in Pay(tokens, t, from, to, amount)
              && Total(Pay(tokens, t, from, to, amount)[token]) == Total(tokens[token])
  {
    if t in tokens {
      MovedKeepsTotal(tokens[t], from, to, amount);
    }
  }

  /**
   Custody only leaves the contract through a settlement: any other step, whoever signs it, leaves
   the contract at least what it had, and a settlement takes exactly the amount to exactly its payee.
   */
  lemma CustodyLeavesOnlyBySettlement(self: Address, w: World, auth: set<Address>, call: Call, token: Address)
    requires self !in auth && token in w.tokens
    ensures var (after, outcome) := Apply(self, w, auth, call);
            token in after.tokens
            && (if (call.Release? || call.Refund?) && outcome.Ok? && token == w.deal.value.token then
                  var payee := if call.Release? then w.deal.value.seller else w.deal.value.buyer;
                  payee != self ==>
                    && Get(after.tokens[token], self) == Get(w.tokens[token], self) - w.deal.value.amount
                    && Get(after.tokens[token], payee) == Get(w.tokens[token], payee) + w.deal.value.amount
                else
                  Get(after.tokens[token], self) >= Get(w.tokens[token], self))
  {}

  /** `amount` of `token` went from one account to another, and nothing else moved. */
  ghost predicate Moves(before: Tokens, after: Tokens, token: Address, from: Address, to: Address, amount: int) {
    && token in before && after.Keys == before.Keys
    && (forall t :: t in before && t != token ==> after[t] == before[t])
    && forall a :: Get(after[token], a)
                   == Get(before[token], a) - (if a == from then amount else 0) + (if a == to then amount else 0)
  }

  /**
   A deal begins exactly when there is none yet and a signed buyer can pay a positive amount. It then
   records every argument in its own place, and the amount moves from the buyer into custody. Otherwise
   nothing changes, and the answer says which of the reasons it was.
   */
  lemma DepositIsExact(self: Address, w: World, steps: seq<Step>, auth: set<Address>,
                       buyer: Address, seller: Address, arbiter: Address, token: Address, amount: I128,
                       orderRef: string)
    requires CustodyInv(self, w) && Unforged(self, steps)
    ensures var u := Run(self, w, steps);
            var (after, outcome) := Apply(self, u, auth, Initialize(buyer, seller, arbiter, token, amount, orderRef));
            && (outcome.Ok? <==>
                  u.deal.None? && buyer in auth && token in u.tokens && 0 < amount <= Get(u.tokens[token], buyer))
            && (outcome.Ok? ==>
                  && after.deal == Some(Deal(buyer, seller, arbiter, token, amount, Locked, false, orderRef))
                  && Moves(u.tokens, after.tokens, token, buyer, self, amount))
            && (!outcome.Ok? ==> after == u)
            && (outcome == Err(AlreadyInitialized) <==> u.deal.Some?)
            && (outcome == Err(InvalidAmount) <==> u.deal.None? && amount <= 0)
            && (outcome.Err? ==> outcome.error == AlreadyInitialized || outcome.error == InvalidAmount)
  {
    RunKeepsCustody(self, w, steps);
    var u := Run(self, w, steps);
    if token in u.tokens && 0 < amount <= Get(u.tokens[token], buyer) {
      EntriesBelowTotal(u.tokens[token], buyer, self);
    }
  }

  /** Anyone may move what they hold, and that is all such a transfer does. */
  lemma OutsideTransferIsExact(self: Address, w: World, steps: seq<Step>, auth: set<Address>,
                               token: Address, from: Address, to: Address, amount: I128)
    requires CustodyInv(self, w) && Unforged(self, steps)
    ensures var u := Run(self, w, steps);
            var (after, outcome) := Apply(self, u, auth, Move(token, from, to, amount));
            && (outcome.Ok? <==> from in auth && token in u.tokens && 0 <= amount <= Get(u.tokens[token], from))
            && (outcome.Ok? ==> after.deal == u.deal && Moves(u.tokens, after.tokens, token, from, to, amount))
            && (!outcome.Ok? ==> after == u && outcome.Trap?)
  {
    RunKeepsCustody(self, w, steps);
    var u := Run(self, w, steps);
    if token in u.tokens && 0 <= amount <= Get(u.tokens[token], from) {
      EntriesBelowTotal(u.tokens[token], from, to);
    }
  }

  // ---------- A deal follows from its own `initialize` ----------

  /** Which kinds of call have succeeded so far. */
  datatype History = History(deposited: bool, confirmed: bool, disputed: bool, released: bool, refunded: bool) {
    predicate Settled() { released || refunded }
  }

  /** The history after one more call. */
  function Noted(h: History, call: Call, outcome: Outcome): History {
    if !outcome.Ok? then h
    else
      match call
      case Initialize(_, _, _, _, _, _) => h.(deposited := true)
      case ConfirmDelivery => h.(confirmed := true)
      case Dispute(_) => h.(disputed := true)
      case Release => h.(released := true)
      case Refund => h.(refunded := true)
      case Move(_, _, _, _) => h
  }

  function HistoryOf(self: Address, w: World, steps: seq<Step>): History
    decreases |steps|
  {
    if steps == [] then History(false, false, false, false, false)
    else
      var n := |steps| - 1;
      Noted(HistoryOf(self, w, steps[..n]), steps[n].call, OutcomeAt(self, w, steps, n))
  }

  /** The state of a deal says exactly which calls have succeeded since the contract was empty. */
  predicate Tells(u: World, h: History) {
    match u.deal
    case None => h == History(false, false, false, false, false)
    case Some(d) =>
      && h.deposited && d.deliveryConfirmed == h.confirmed
      && (d.state == Released <==> h.released) && (d.state == Refunded <==> h.refunded)
      && (d.state == Disputed ==> h.disputed) && (d.state == Locked ==> !h.disputed)
  }

  lemma StepTells(self: Address, u: World, h: History, auth: set<Address>, call: Call)
    requires Tells(u, h)
    ensures Tells(Apply(self, u, auth, call).0, Noted(h, call, Apply(self, u, auth, call).1))
  {}

  lemma {:induction false} StateTellsHistory(self: Address, w: World, steps: seq<Step>)
    requires w.deal.None?
    ensures Tells(Run(self, w, steps), HistoryOf(self, w, steps))
    decreases |steps|
  {
    if steps != [] {
      var n := |steps| - 1;
      StateTellsHistory(self, w, steps[..n]);
      StepTells(self, Run(self, w, steps[..n]), HistoryOf(self, w, steps[..n]), steps[n].auth, steps[n].call);
    }
  }

  /** An outcome that only still asks for one signature. */
  function SignedBy(a: Address, step: Step): Outcome { if a in step.auth then Ok else Trap }

  /** What a call is answered, from the arguments of `initialize` and what has succeeded since. */
  function Verdict(init: Call, h: History, step: Step): Outcome
    requires init.Initialize? && !step.call.Move?
  {
    match step.call
    case Initialize(_, _, _, _, _, _) => Err(AlreadyInitialized)
    case ConfirmDelivery =>
      if h.confirmed || h.disputed || h.Settled() then Err(InvalidState) else SignedBy(init.buyer, step)
    case Dispute(party) =>
      if h.disputed || h.Settled() then Err(InvalidState)
      else if party !in {init.buyer, init.seller, init.arbiter} then Err(Unauthorized)
      else SignedBy(party, step)
    case Release =>
      if h.Settled() || !(h.confirmed || h.disputed) then Err(InvalidState) else SignedBy(init.arbiter, step)
    case Refund =>
      if h.Settled() then Err(InvalidState) else SignedBy(init.arbiter, step)
  }

  /** What such a call does to the tokens: a release pays the seller argument, a refund the buyer argument. */
  ghost predicate MovesAsAgreed(self: Address, before: Tokens, after: Tokens, init: Call, step: Step, outcome: Outcome)
    requires init.Initialize?
  {
    if outcome.Ok? && step.call.Release? then Moves(before, after, init.token, self, init.seller, init.amount)
    else if outcome.Ok? && step.call.Refund? then Moves(before, after, init.token, self, init.buyer, init.amount)
    else after == before
  }

  /** The deal that `initialize` records, in whatever state it has come to. */
  ghost predicate HasTerms(u: World, init: Call)
    requires init.Initialize?
  {
    u.deal.Some? && SameTerms(Deal(init.buyer, init.seller, init.arbiter, init.token, init.amount, Locked, false,
                                   init.orderRef), u.deal.value)
  }

  lemma TermsAreTheArguments(self: Address, w: World, steps: seq<Step>, i: nat)
    requires i < |steps| && steps[i].call.Initialize? && OutcomeAt(self, w, steps, i).Ok?
    ensures HasTerms(Run(self, w, steps), steps[i].call)
  {
    assert steps[..i + 1][..i] == steps[..i];
    RunFrom(self, w, steps, i + 1);
    TermsAreFixed(self, Run(self, w, steps[..i + 1]), steps[i + 1..]);
  }

  lemma VerdictOfState(self: Address, u: World, h: History, init: Call, step: Step)
    requires init.Initialize? && !step.call.Move? && HasTerms(u, init) && Tells(u, h)
    requires !h.Settled() ==> CanPay(u.tokens, init.token, self, init.seller, init.amount)
    requires !h.Settled() ==> CanPay(u.tokens, init.token, self, init.buyer, init.amount)
    ensures var (after, outcome) := Apply(self, u, step.auth, step.call);
            outcome == Verdict(init, h, step) && HasTerms(after, init) && (!outcome.Ok? ==> after == u)
  {}

  lemma PaymentOfState(self: Address, u: World, init: Call, step: Step)
    requires init.Initialize? && !step.call.Move? && HasTerms(u, init)
    ensures var (after, outcome) := Apply(self, u, step.auth, step.call);
            MovesAsAgreed(self, u.tokens, after.tokens, init, step, outcome)
  {}

  /**
   After a successful `initialize` every later call is answered as its arguments and the calls that have
   succeeded since say, and moves exactly what they say: only a release, to the seller argument, and a
   refund, to the buyer argument, both signed by the arbiter argument, move a token.
   */
  lemma CallsFollowTheDeposit(self: Address, w: World, steps: seq<Step>, i: nat, step: Step)
    requires CustodyInv(self, w) && w.deal.None? && Unforged(self, steps) && !step.call.Move?
    requires i < |steps| && steps[i].call.Initialize? && OutcomeAt(self, w, steps, i).Ok?
    ensures var init, u := steps[i].call, Run(self, w, steps);
            var (after, outcome) := Apply(self, u, step.auth, step.call);
            && outcome == Verdict(init, HistoryOf(self, w, steps), step) && HasTerms(after, init)
            && MovesAsAgreed(self, u.tokens, after.tokens, init, step, outcome)
            && (!outcome.Ok? ==> after == u)
  {
    var init, u := steps[i].call, Run(self, w, steps);
    StateTellsHistory(self, w, steps);
    TermsAreTheArguments(self, w, steps, i);
    RunKeepsCustody(self, w, steps);
    if Open(u.deal.value) {
      OpenDealIsPayable(self, u, init.seller);
      OpenDealIsPayable(self, u, init.buyer);
    }
    VerdictOfState(self, u, HistoryOf(self, w, steps), init, step);
    PaymentOfState(self, u, init, step);
  }

  /** Before the first successful `initialize` there is nothing to confirm, dispute, release or refund. */
  lemma NothingBeforeTheDeposit(self: Address, w: World, steps: seq<Step>, step: Step)
    requires w.deal.None? && !HistoryOf(self, w, steps).deposited
    requires !step.call.Initialize? && !step.call.Move?
    ensures var u := Run(self, w, steps);
            Apply(self, u, step.auth, step.call) == (u, Err(NotInitialized))
  {
    StateTellsHistory(self, w, steps);
  }

  // ---------- Termination ----------

  /** How many more successful calls a deal can take. */
  function Remaining(w: World): nat {
    match w.deal
    case None => 4
    case Some(d) =>
      match d.state {
        case Locked => if d.deliveryConfirmed then 2 else 3
        case Disputed => 1
        case _ => 0
      }
  }

  /** Every successful escrow call uses up one of them; failures and outside moves use none. */
  lemma SuccessUsesUp(self: Address, w: World, auth: set<Address>, call: Call)
    ensures var (after, outcome) := Apply(self, w, auth, call);
            if outcome.Ok? && !call.Move? then Remaining(after) < Remaining(w)
            else Remaining(after) == Remaining(w) && after.deal == w.deal
  {}

  /** The escrow calls of a run that succeeded. */
  function Successes(self: Address, w: World, steps: seq<Step>): nat
    decreases |steps|
  {
    if steps == [] then 0
    else
      var n := |steps| - 1;
      Successes(self, w, steps[..n]) +
      if !steps[n].call.Move? && OutcomeAt(self, w, steps, n).Ok? then 1 else 0
  }

  /** After `initialize` at most three calls succeed, and none once a deal is settled. */
  lemma {:induction false} BoundedSuccesses(self: Address, w: World, steps: seq<Step>)
    ensures Successes(self, w, steps) + Remaining(Run(self, w, steps)) <= Remaining(w)
    decreases |steps|
  {
    if steps != [] {
      var n := |steps| - 1;
      BoundedSuccesses(self, w, steps[..n]);
      SuccessUsesUp(self, Run(self, w, steps[..n]), steps[n].auth, steps[n].call);
    }
  }

  lemma AtMostThreeAfterInitialize(self: Address, w: World, steps: seq<Step>)
    requires w.deal.Some?
    ensures Successes(self, w, steps) <= 3
    ensures !Open(w.deal.value) ==> Successes(self, w, steps) == 0
  {
    BoundedSuccesses(self, w, steps);
  }

  lemma {:induction false} SettledIsFinal(self: Address, w: World, steps: seq<Step>)
    requires w.deal.Some? && !Open(w.deal.value)
    ensures Run(self, w, steps).deal == w.deal
    decreases |steps|
  {
    if steps != [] {
      SettledIsFinal(self, w, steps[..|steps| - 1]);
    }
  }

  predicate Settles(step: Step) {
    step.call.Release? || step.call.Refund?
  }

  /** The amount is paid out at most once: no two settlements of a run both succeed. */
  lemma PaidAtMostOnce(self: Address, w: World, steps: seq<Step>, i: nat, j: nat)
    requires i < |steps| && j < |steps|
    requires Settles(steps[i]) && OutcomeAt(self, w, steps, i).Ok?
    requires Settles(steps[j]) && OutcomeAt(self, w, steps, j).Ok?
    ensures i == j
  {
    if i < j {
      SecondSettlementFails(self, w, steps, i, j);
    } else if j < i {
      SecondSettlementFails(self, w, steps, j, i);
    }
  }

  lemma SecondSettlementFails(self: Address, w: World, steps: seq<Step>, i: nat, j: nat)
    requires i < j < |steps|
    requires Settles(steps[i]) && OutcomeAt(self, w, steps, i).Ok?
    requires Settles(steps[j])
    ensures !OutcomeAt(self, w, steps, j).Ok?
  {
    assert steps[..i + 1][..i] == steps[..i];
    RunFrom(self, w, steps[..j], i + 1);
    assert steps[..j][..i + 1] == steps[..i + 1];
    SettledIsFinal(self, Run(self, w, steps[..i + 1]), steps[..j][i + 1..]);
  }

  // ---------- History ----------

  /** The parties, the token and the amount never change once the deal is recorded. */
  predicate SameTerms(d: Deal, e: Deal) {
    d.(state := e.state, deliveryConfirmed := e.deliveryConfirmed) == e
  }

  lemma {:induction false} TermsAreFixed(self: Address, w: World, steps: seq<Step>)
    requires w.deal.Some?
    ensures Run(self, w, steps).deal.Some? && SameTerms(w.deal.value, Run(self, w, steps).deal.value)
    decreases |steps|
  {
    if steps != [] {
      TermsAreFixed(self, w, steps[..|steps| - 1]);
    }
  }

  ghost predicate BuyerConfirmed(self: Address, w: World, steps: seq<Step>, d: Deal, i: nat) {
    i < |steps| && OutcomeAt(self, w, steps, i).Ok? && steps[i].call.ConfirmDelivery? && d.buyer in steps[i].auth
  }

  ghost predicate PartyDisputed(self: Address, w: World, steps: seq<Step>, d: Deal, i: nat) {
    && i < |steps| && OutcomeAt(self, w, steps, i).Ok? && steps[i].call.Dispute?
    && var party := steps[i].call.party;
       party in steps[i].auth && (party == d.buyer || party == d.seller || party == d.arbiter)
  }

  ghost predicate ArbiterReleased(self: Address, w: World, steps: seq<Step>, d: Deal, i: nat) {
    i < |steps| && OutcomeAt(self, w, steps, i).Ok? && steps[i].call.Release? && d.arbiter in steps[i].auth
  }

  ghost predicate ConfirmedBy(self: Address, w: World, steps: seq<Step>, d: Deal) {
    exists i: nat :: BuyerConfirmed(self, w, steps, d, i)
  }

  ghost predicate DisputedBy(self: Address, w: World, steps: seq<Step>, d: Deal) {
    exists i: nat :: PartyDisputed(self, w, steps, d, i)
  }

  /** A release by the arbiter after a confirmation by the buyer or a dispute by a party. */
  ghost predicate ReleasedBy(self: Address, w: World, steps: seq<Step>, d: Deal) {
    exists j: nat ::
      && ArbiterReleased(self, w, steps, d, j)
      && (ConfirmedBy(self, w, steps[..j], d) || DisputedBy(self, w, steps[..j], d))
  }

  /** The events of a prefix are events of the whole run. */
  lemma EventsOfPrefix(self: Address, w: World, steps: seq<Step>, n: nat, d: Deal)
    requires n <= |steps|
    ensures ConfirmedBy(self, w, steps[..n], d) ==> ConfirmedBy(self, w, steps, d)
    ensures DisputedBy(self, w, steps[..n], d) ==> DisputedBy(self, w, steps, d)
    ensures ReleasedBy(self, w, steps[..n], d) ==> ReleasedBy(self, w, steps, d)
  {
    assert forall i: nat {:trigger steps[..i]} :: i <= n ==> steps[..n][..i] == steps[..i];
    if i: nat :| BuyerConfirmed(self, w, steps[..n], d, i) {
      assert BuyerConfirmed(self, w, steps, d, i);
    }
    if i: nat :| PartyDisputed(self, w, steps[..n], d, i) {
      assert PartyDisputed(self, w, steps, d, i);
    }
    if j: nat :| (ArbiterReleased(self, w, steps[..n], d, j)
                  && (ConfirmedBy(self, w, steps[..n][..j], d) || DisputedBy(self, w, steps[..n][..j], d))) {
      assert ArbiterReleased(self, w, steps, d, j);
    }
  }

  /**
   What must have happened for the deal of an initially empty contract to be in its state: delivery
   confirmed by the buyer, a dispute opened by a party, and a release signed by the arbiter after
   one of the two.
   */
  lemma {:induction false} HistoryOfTheState(self: Address, w: World, steps: seq<Step>, d: Deal)
    requires w.deal.None? && Run(self, w, steps).deal.Some? && SameTerms(d, Run(self, w, steps).deal.value)
    ensures var e := Run(self, w, steps).deal.value;
            && (e.deliveryConfirmed ==> ConfirmedBy(self, w, steps, d))
            && (e.state == Disputed ==> DisputedBy(self, w, steps, d))
            && (e.state == Released ==> ReleasedBy(self, w, steps, d))
    decreases |steps|
  {
    var n := |steps| - 1;
    var before := Run(self, w, steps[..n]);
    if before.deal.Some? {
      HistoryOfTheState(self, w, steps[..n], d);
      EventsOfPrefix(self, w, steps, n, d);
      if before.deal != Run(self, w, steps).deal {
        match steps[n].call
        case ConfirmDelivery => assert BuyerConfirmed(self, w, steps, d, n);
        case Dispute(_) => assert PartyDisputed(self, w, steps, d, n);
        case Release => assert ArbiterReleased(self, w, steps, d, n);
        case _ =>
      }
    }
  }

  /**
   A deal is released only by a call the arbiter signed, and only after a confirmation the buyer
   signed or a dispute signed by buyer, seller or arbiter.
   */
  lemma ReleasedOnlyWithTheArbiter(self: Address, w: World, steps: seq<Step>)
    requires w.deal.None? && Run(self, w, steps).deal.Some? && Run(self, w, steps).deal.value.state == Released
    ensures ReleasedBy(self, w, steps, Run(self, w, steps).deal.value)
  {
    HistoryOfTheState(self, w, steps, Run(self, w, steps).deal.value);
  }
}
