/**
 What the token contract keeps over every run of invocations: the ledger, its compliance controls,
 and the payout arithmetic.
 */
module RwaTokenRuns {
  import opened Arithmetic
  import opened Counting
  import opened Wrappers
  import opened Balances
  import opened RwaToken

  /** One invocation with the addresses that authorized it. */
  datatype Step = Step(auth: set<Address>, call: Call)

  function Run(t: Token, steps: seq<Step>): Token
    decreases |steps|
  {
    if steps == [] then t
    else
      var before := Run(t, steps[..|steps| - 1]);
      var last := steps[|steps| - 1];
      Apply(before, last.auth, last.call).0
  }

  /** The outcome of invocation `i` of a run. */
  function OutcomeAt(t: Token, steps: seq<Step>, i: nat): Outcome
    requires i < |steps|
  {
    Apply(Run(t, steps[..i]), steps[i].auth, steps[i].call).1
  }

  lemma {:induction false} RunFrom(t: Token, steps: seq<Step>, i: nat)
    requires i <= |steps|
    ensures Run(t, steps) == Run(Run(t, steps[..i]), steps[i..])
    decreases |steps|
  {
    var n := |steps|;
    if i < n {
      RunFrom(t, steps[..n - 1], i);
      assert steps[..n - 1][..i] == steps[..i];
      assert steps[i..][..n - i - 1] == steps[..n - 1][i..];
      assert steps[i..][n - i - 1] == steps[n - 1];
    } else {
      assert steps[..i] == steps;
    }
  }

  // ---------- The ledger ----------

  /** Balances are non-negative, sum to the fixed supply, and respect the allowlist. */
  ghost predicate LedgerInv(t: Token) {
    && (t.meta.Some? <==> t.balances.Some?)
    && (t.meta.Some? ==>
          && 0 < t.meta.value.totalUnits
          && NonNegative(t.balances.value)
          && Total(t.balances.value) == t.meta.value.totalUnits
          && (t.meta.value.requireAuthorization ==>
                t.authorized.Some? && t.balances.value.Keys <= t.authorized.value.Keys))
  }

  lemma StepKeepsLedger(t: Token, auth: set<Address>, call: Call)
    requires LedgerInv(t)
    ensures LedgerInv(Apply(t, auth, call).0)
  {
    match call
    case Initialize(issuer, _, _, _, totalUnits, _) =>
      TotalUpdate(map[], issuer, totalUnits);
      assert map[][issuer := totalUnits] == map[issuer := totalUnits];
    case Transfer(from, to, units) =>
      if t.balances.Some? {
        MovedKeepsTotal(t.balances.value, from, to, units);
      }
    case _ =>
  }

  lemma {:induction false} RunKeepsLedger(steps: seq<Step>)
    ensures LedgerInv(Run(EMPTY, steps))
    decreases |steps|
  {
    if steps != [] {
      var n := |steps| - 1;
      RunKeepsLedger(steps[..n]);
      StepKeepsLedger(Run(EMPTY, steps[..n]), steps[n].auth, steps[n].call);
    }
  }

  /**
   In a reachable state the addition in `transfer` never leaves i128: an invocation aborts exactly
   when an authorization it asks for is missing.
   */
  lemma OnlyMissingAuthorizationTraps(steps: seq<Step>, auth: set<Address>, call: Call)
    ensures var t := Run(EMPTY, steps);
            Apply(t, auth, call).1.Trap? <==>
              match call {
                case Initialize(issuer, _, _, _, totalUnits, _) =>
                  t.meta.None? && totalUnits > 0 && issuer !in auth
                case Transfer(from, _, units) => units > 0 && from !in auth
                case _ => t.meta.Some? && t.meta.value.issuer !in auth
              }
  {
    RunKeepsLedger(steps);
    var t := Run(EMPTY, steps);
    if call.Transfer? && t.balances.Some? {
      var held := t.balances.value;
      MovedKeepsTotal(held, call.from, call.to, call.units);
      if 0 < call.units <= Get(held, call.from) {
        EntriesBelowTotal(held, call.from, call.to);
      }
    }
  }

  /**
   A transfer succeeds exactly when it is positive, signed, not frozen, permitted to both parties and
   covered; it then moves exactly its units, touching nobody else, and a failure moves nothing.
   */
  lemma TransferMovesExactly(steps: seq<Step>, auth: set<Address>, from: Address, to: Address, units: I128,
                             other: Address)
    requires Run(EMPTY, steps).meta.Some?
    ensures var t := Run(EMPTY, steps);
            var (u, outcome) := Apply(t, auth, Call.Transfer(from, to, units));
            && t.balances.Some? && u.balances.Some? && u.meta == t.meta && u.authorized == t.authorized
            && (outcome.Ok? <==>
                  && 0 < units <= Get(t.balances.value, from) && from in auth && !t.meta.value.frozen
                  && (t.meta.value.requireAuthorization ==> Allowed(t, from) && Allowed(t, to)))
            && (!outcome.Ok? ==> u == t)
            && (outcome.Ok? ==>
                  Get(u.balances.value, other) == Get(t.balances.value, other)
                                                  - (if other == from then units else 0)
                                                  + (if other == to then units else 0))
  {
    RunKeepsLedger(steps);
    OnlyMissingAuthorizationTraps(steps, auth, Call.Transfer(from, to, units));
  }

  /** Which refusal a transfer meets: the first of the contract's checks that fails, in a reachable state. */
  lemma TransferRefusedExactlyWhen(steps: seq<Step>, auth: set<Address>, from: Address, to: Address, units: I128)
    ensures var t := Run(EMPTY, steps);
            var outcome := Apply(t, auth, Call.Transfer(from, to, units)).1;
            var asked := 0 < units && from in auth;
            var open := asked && t.meta.Some? && !t.meta.value.frozen;
            var permitted := open && (t.meta.value.requireAuthorization ==> Allowed(t, from) && Allowed(t, to));
            && (outcome == Err(InvalidAmount) <==> units <= 0)
            && (outcome.Trap? <==> 0 < units && from !in auth)
            && (outcome == Err(NotInitialized) <==> asked && t.meta.None?)
            && (outcome == Err(TransfersFrozen) <==> asked && t.meta.Some? && t.meta.value.frozen)
            && (outcome == Err(NotAuthorized) <==> open && !permitted)
            && (permitted ==> t.balances.Some?)
            && (outcome == Err(InsufficientUnits) <==> permitted && Get(t.balances.value, from) < units)
  {
    RunKeepsLedger(steps);
    OnlyMissingAuthorizationTraps(steps, auth, Call.Transfer(from, to, units));
  }

  /**
   A token comes into being exactly when there is none, its supply is positive and its issuer signed. It
   then has the terms it was given, all units are the issuer's, it is neither frozen nor distributed, and
   under required authorization exactly the issuer is allowed.
   */
  lemma InitializeIsExact(steps: seq<Step>, auth: set<Address>, issuer: Address, assetRef: string,
                          assetType: AssetType, description: string, totalUnits: I128,
                          requireAuthorization: bool, a: Address)
    ensures var t := Run(EMPTY, steps);
            var (u, outcome) := Apply(t, auth, Initialize(issuer, assetRef, assetType, description, totalUnits,
                                                          requireAuthorization));
            && (outcome.Ok? <==> t.meta.None? && 0 < totalUnits && issuer in auth)
            && (outcome == Err(AlreadyInitialized) <==> t.meta.Some?)
            && (outcome == Err(InvalidAmount) <==> t.meta.None? && totalUnits <= 0)
            && (outcome.Err? ==> outcome.error == AlreadyInitialized || outcome.error == InvalidAmount)
            && (!outcome.Ok? ==> u == t)
            && (outcome.Ok? ==>
                  && HasTerms(u, issuer, assetRef, assetType, description, totalUnits, requireAuthorization)
                  && !u.meta.value.frozen && !u.meta.value.distributed
                  && u.balances.Some? && Get(u.balances.value, a) == (if a == issuer then totalUnits else 0)
                  && (requireAuthorization ==> (Allowed(u, a) <==> a == issuer)))
  {}

  predicate HasTerms(t: Token, issuer: Address, assetRef: string, assetType: AssetType, description: string,
                     totalUnits: I128, requireAuthorization: bool)
  {
    && t.meta.Some? && t.meta.value.issuer == issuer && t.meta.value.assetRef == assetRef
    && t.meta.value.assetType == assetType && t.meta.value.description == description
    && t.meta.value.totalUnits == totalUnits && t.meta.value.requireAuthorization == requireAuthorization
  }

  /** Once required, the allowlist changes only by the issuer's own calls, one address at a time. */
  lemma AllowlistFollowsTheIssuer(t: Token, auth: set<Address>, call: Call, a: Address)
    requires t.meta.Some? && t.meta.value.requireAuthorization
    ensures var signed := t.meta.value.issuer in auth;
            Allowed(Apply(t, auth, call).0, a) <==>
            (signed && call == Call.Authorize(a)) || (Allowed(t, a) && !(signed && call == Call.RevokeAuthorization(a)))
  {}

  /** Two metadata that differ at most in the two marks the issuer sets. */
  predicate SameTerms(m: Meta, n: Meta) {
    m.(distributed := n.distributed, frozen := n.frozen) == n
  }

  /** Issuer, asset, supply and authorization mode are fixed once the token exists. */
  lemma {:induction false} TermsAreFixed(t: Token, steps: seq<Step>)
    requires t.meta.Some?
    ensures Run(t, steps).meta.Some? && SameTerms(t.meta.value, Run(t, steps).meta.value)
    decreases |steps|
  {
    if steps != [] {
      TermsAreFixed(t, steps[..|steps| - 1]);
    }
  }

  // ---------- Compliance controls ----------

  /** An `unfreeze` that the issuer authorized. */
  predicate Unfreezes(issuer: Address, step: Step) {
    step.call.Unfreeze? && issuer in step.auth
  }

  lemma {:induction false} FrozenRunMovesNothing(t: Token, steps: seq<Step>)
    requires t.meta.Some? && t.meta.value.frozen
    requires forall s :: s in steps ==> !Unfreezes(t.meta.value.issuer, s)
    ensures Run(t, steps).balances == t.balances
    ensures Run(t, steps).meta.Some? && Run(t, steps).meta.value.frozen
    decreases |steps|
  {
    if steps != [] {
      var n := |steps| - 1;
      FrozenRunMovesNothing(t, steps[..n]);
      TermsAreFixed(t, steps[..n]);
      assert steps[n] in steps;
    }
  }

  /**
   Freezing works: from every reachable token a freeze signed by the issuer succeeds, and whatever follows
   without an unfreeze the issuer signed, no transfer succeeds and every balance stays what it was.
   */
  lemma FreezeStopsTransfers(before: seq<Step>, auth: set<Address>, after: seq<Step>, j: nat)
    requires Run(EMPTY, before).meta.Some? && Run(EMPTY, before).meta.value.issuer in auth
    requires forall s :: s in after ==> !Unfreezes(Run(EMPTY, before).meta.value.issuer, s)
    ensures var steps := before + [Step(auth, Freeze)] + after;
            && OutcomeAt(EMPTY, steps, |before|).Ok?
            && Run(EMPTY, steps).balances == Run(EMPTY, before).balances
            && (|before| < j < |steps| && steps[j].call.Transfer? ==> !OutcomeAt(EMPTY, steps, j).Ok?)
  {
    var t := Run(EMPTY, before);
    var frozen := before + [Step(auth, Freeze)];
    var steps := frozen + after;
    var n := |before| + 1;
    assert steps[..|before|] == before && frozen[..|before|] == before;
    FrozenContinues(frozen, after, |after|);
    assert frozen + after[..|after|] == steps;
    if |before| < j < |steps| {
      FrozenContinues(frozen, after, j - n);
      assert frozen + after[..j - n] == steps[..j];
    }
  }

  lemma FrozenContinues(frozen: seq<Step>, after: seq<Step>, k: nat)
    requires Run(EMPTY, frozen).meta.Some? && Run(EMPTY, frozen).meta.value.frozen && k <= |after|
    requires forall s :: s in after ==> !Unfreezes(Run(EMPTY, frozen).meta.value.issuer, s)
    ensures var t := Run(EMPTY, frozen + after[..k]);
            t.meta.Some? && t.meta.value.frozen && t.balances == Run(EMPTY, frozen).balances
  {
    var steps := frozen + after[..k];
    assert steps[..|frozen|] == frozen && steps[|frozen|..] == after[..k];
    RunFrom(EMPTY, steps, |frozen|);
    FrozenRunMovesNothing(Run(EMPTY, frozen), after[..k]);
  }

  /**
   And unfreezing undoes it: after an unfreeze the issuer signed, which always succeeds, a transfer
   succeeds exactly when it is positive, covered, signed and permitted to both parties.
   */
  lemma UnfreezeRestoresTransfers(before: seq<Step>, auth: set<Address>, signers: set<Address>,
                                  from: Address, to: Address, units: I128)
    requires Run(EMPTY, before).meta.Some? && Run(EMPTY, before).meta.value.issuer in auth
    ensures var t := Run(EMPTY, before);
            var steps := before + [Step(auth, Unfreeze), Step(signers, Call.Transfer(from, to, units))];
            && OutcomeAt(EMPTY, steps, |before|).Ok?
            && t.balances.Some?
            && (OutcomeAt(EMPTY, steps, |before| + 1).Ok? <==>
                  && 0 < units <= Get(t.balances.value, from) && from in signers
                  && (t.meta.value.requireAuthorization ==> Allowed(t, from) && Allowed(t, to)))
  {
    var thawed := before + [Step(auth, Unfreeze)];
    var steps := before + [Step(auth, Unfreeze), Step(signers, Call.Transfer(from, to, units))];
    assert steps[..|before|] == before && thawed[..|before|] == before;
    assert steps[..|before| + 1] == thawed;
    TransferMovesExactly(thawed, signers, from, to, units, from);
  }

  /** The calls of a run that succeeded, in order. */
  function Done(steps: seq<Step>): seq<Call>
    decreases |steps|
  {
    if steps == [] then []
    else
      var n := |steps| - 1;
      if OutcomeAt(EMPTY, steps, n).Ok? then Done(steps[..n]) + [steps[n].call] else Done(steps[..n])
  }

  /** Call `i` is `last`, and `undo` does not come after it. */
  predicate StandsAt(done: seq<Call>, i: nat, last: Call, undo: Call) {
    i < |done| && done[i] == last && undo !in done[i + 1..]
  }

  ghost predicate Standing(done: seq<Call>, last: Call, undo: Call) {
    exists i: nat :: StandsAt(done, i, last, undo)
  }

  lemma StandsAtGrows(done: seq<Call>, c: Call, i: nat, last: Call, undo: Call)
    requires i < |done|
    ensures StandsAt(done + [c], i, last, undo) <==> StandsAt(done, i, last, undo) && c != undo
  {
    assert (done + [c])[i + 1..] == done[i + 1..] + [c];
  }

  lemma StandingGrows(done: seq<Call>, c: Call, last: Call, undo: Call)
    requires last != undo
    ensures Standing(done + [c], last, undo) <==> c == last || (c != undo && Standing(done, last, undo))
  {
    var more := done + [c];
    if c == last {
      assert more[|done| + 1..] == [];
      assert StandsAt(more, |done|, last, undo);
    } else {
      if i: nat :| StandsAt(done, i, last, undo) {
        StandsAtGrows(done, c, i, last, undo);
      }
      if i: nat :| StandsAt(more, i, last, undo) {
        StandsAtGrows(done, c, i, last, undo);
      }
    }
  }

  /** Transfers are frozen exactly when a freeze has succeeded and no unfreeze since. */
  lemma {:induction false} FrozenExactlyWhen(steps: seq<Step>)
    ensures var t := Run(EMPTY, steps);
            t.meta.Some? && t.meta.value.frozen <==> Standing(Done(steps), Freeze, Unfreeze)
    decreases |steps|
  {
    if steps != [] {
      var n := |steps| - 1;
      FrozenExactlyWhen(steps[..n]);
      StandingGrows(Done(steps[..n]), steps[n].call, Freeze, Unfreeze);
    }
  }

  /**
   Under required authorization an address is allowed exactly when its authorization succeeded and no
   revocation of it since; the issuer also while it has never been revoked.
   */
  lemma {:induction false} AllowedExactlyWhen(steps: seq<Step>, a: Address)
    requires Run(EMPTY, steps).meta.Some? && Run(EMPTY, steps).meta.value.requireAuthorization
    ensures var t := Run(EMPTY, steps);
            Allowed(t, a) <==>
              || Standing(Done(steps), Authorize(a), RevokeAuthorization(a))
              || (a == t.meta.value.issuer && RevokeAuthorization(a) !in Done(steps))
    decreases |steps|
  {
    var n := |steps| - 1;
    var before, done := Run(EMPTY, steps[..n]), Done(steps[..n]);
    StandingGrows(done, steps[n].call, Authorize(a), RevokeAuthorization(a));
    if before.meta.Some? {
      AllowedExactlyWhen(steps[..n], a);
    } else {
      NothingBeforeInitialize(steps[..n]);
    }
  }

  /** While there is no token no call has succeeded. */
  lemma {:induction false} NothingBeforeInitialize(steps: seq<Step>)
    requires Run(EMPTY, steps).meta.None?
    ensures Done(steps) == []
    decreases |steps|
  {
    if steps != [] {
      NothingBeforeInitialize(steps[..|steps| - 1]);
    }
  }

  /** The distribution mark is set exactly when a `mark_distributed` has succeeded. */
  lemma {:induction false} DistributedExactlyWhen(steps: seq<Step>)
    ensures var t := Run(EMPTY, steps);
            t.meta.Some? && t.meta.value.distributed <==> MarkDistributed in Done(steps)
    decreases |steps|
  {
    if steps != [] {
      var n := |steps| - 1;
      DistributedExactlyWhen(steps[..n]);
      if Run(EMPTY, steps[..n]).meta.None? { NothingBeforeInitialize(steps[..n]); }
    }
  }

  /**
   What the issuer's calls are answered in every reachable state: they need the token and the issuer's
   signature and nothing else, except that only the first distribution mark succeeds. A refused call
   changes nothing, and no issuer's call changes a balance.
   */
  lemma IssuerCallsSucceedExactlyWhen(steps: seq<Step>, auth: set<Address>, call: Call)
    requires !call.Initialize? && !call.Transfer?
    ensures var t := Run(EMPTY, steps);
            var (u, outcome) := Apply(t, auth, call);
            && (outcome == Err(NotInitialized) <==> t.meta.None?)
            && (outcome.Trap? <==> t.meta.Some? && t.meta.value.issuer !in auth)
            && (outcome == Err(AlreadyDistributed) <==>
                  t.meta.Some? && t.meta.value.issuer in auth && call.MarkDistributed? && call in Done(steps))
            && (outcome.Err? ==> outcome.error == NotInitialized || outcome.error == AlreadyDistributed)
            && (!outcome.Ok? ==> u == t)
            && u.balances == t.balances
            && (u.meta != t.meta ==> call.MarkDistributed? || call.Freeze? || call.Unfreeze?)
            && (u.authorized != t.authorized ==>
                  (call.Authorize? || call.RevokeAuthorization?) && t.meta.Some? && t.meta.value.requireAuthorization)
  {
    DistributedExactlyWhen(steps);
  }

  /** Among all the `mark_distributed` calls of a run at most one succeeds. */
  lemma DistributedAtMostOnce(steps: seq<Step>, i: nat, j: nat)
    requires i < |steps| && j < |steps|
    requires steps[i].call.MarkDistributed? && OutcomeAt(EMPTY, steps, i).Ok?
    requires steps[j].call.MarkDistributed? && OutcomeAt(EMPTY, steps, j).Ok?
    ensures i == j
  {
    if i < j {
      SecondMarkFails(steps, i, j);
    } else if j < i {
      SecondMarkFails(steps, j, i);
    }
  }

  lemma SecondMarkFails(steps: seq<Step>, i: nat, j: nat)
    requires i < j < |steps|
    requires steps[i].call.MarkDistributed? && OutcomeAt(EMPTY, steps, i).Ok?
    requires steps[j].call.MarkDistributed?
    ensures !OutcomeAt(EMPTY, steps, j).Ok?
  {
    var marked := Run(EMPTY, steps[..i + 1]);
    assert steps[..i + 1][..i] == steps[..i];
    RunFrom(EMPTY, steps[..j], i + 1);
    assert steps[..j][..i + 1] == steps[..i + 1];
    StaysDistributed(marked, steps[..j][i + 1..]);
  }

  lemma {:induction false} StaysDistributed(t: Token, steps: seq<Step>)
    requires t.meta.Some? && t.meta.value.distributed
    ensures Run(t, steps).meta.Some? && Run(t, steps).meta.value.distributed
    decreases |steps|
  {
    if steps != [] {
      StaysDistributed(t, steps[..|steps| - 1]);
    }
  }

  /** Units leave a holder only in an invocation that the holder authorized. */
  lemma {:induction false} OnlyTheHolderSpends(t: Token, steps: seq<Step>, a: Address)
    requires t.meta.Some? && t.balances.Some?
    requires forall s :: s in steps ==> a !in s.auth
    ensures Run(t, steps).meta.Some? && Run(t, steps).balances.Some?
    ensures Get(Run(t, steps).balances.value, a) >= Get(t.balances.value, a)
    decreases |steps|
  {
    if steps != [] {
      var n := |steps| - 1;
      OnlyTheHolderSpends(t, steps[..n], a);
      assert steps[n] in steps;
    }
  }

  /** While an address stays revoked under required authorization, its balance cannot change. */
  lemma {:induction false} RevokedHoldingIsLocked(t: Token, steps: seq<Step>, a: Address)
    requires t.meta.Some? && t.balances.Some? && t.meta.value.requireAuthorization && !Allowed(t, a)
    requires forall s :: s in steps ==> s.call != Call.Authorize(a)
    ensures var u := Run(t, steps);
            u.meta.Some? && u.balances.Some? && u.meta.value.requireAuthorization && !Allowed(u, a)
            && Get(u.balances.value, a) == Get(t.balances.value, a)
    decreases |steps|
  {
    if steps != [] {
      var n := |steps| - 1;
      RevokedHoldingIsLocked(t, steps[..n], a);
      assert steps[n] in steps;
    }
  }

  // ---------- Payouts ----------

  function SumShares(shares: seq<(Address, int)>): int {
    if shares == [] then 0 else shares[0].1 + SumShares(shares[1..])
  }

  /** The token exists and `payout` times its supply stays inside i128. */
  ghost predicate PayoutFits(t: Token, payout: I128) {
    t.meta.Some? && t.balances.Some? && Fits(payout * t.meta.value.totalUnits)
  }

  /** The exact pro-rata entitlement, rounded down. */
  ghost function ShareOf(t: Token, holder: Address, payout: int): int
    requires t.meta.Some? && t.balances.Some?
  {
    if t.meta.value.totalUnits <= 0 then 0
    else payout * Get(t.balances.value, holder) / t.meta.value.totalUnits
  }

  /**
   The payout bound. For a payout that fits, the shares never exceed it and fall short of it by less
   than one unit per positive holder.
   */
  lemma PayoutDust(steps: seq<Step>, payout: I128, shares: seq<(Address, int)>)
    requires 0 <= payout
    requires PayoutFits(Run(EMPTY, steps), payout) && ListsShares(Run(EMPTY, steps), payout, shares)
    ensures var t := Run(EMPTY, steps);
            payout - |Positive(t.balances.value)| < SumShares(shares) <= payout
  {
    var t := Run(EMPTY, steps);
    RunKeepsLedger(steps);
    var held, total := t.balances.value, t.meta.value.totalUnits;
    ListedIsFloored(t, payout, Positive(held), shares);
    SharesFloor(Positive(held), total, payout, shares);
    PositiveTotal(held);
    assert Positive(held) != map[];
    DividedBounds(total, payout, SumShares(shares), |Positive(held)|);
  }

  /** `x` splits into `d` equal whole parts. */
  ghost predicate Divides(d: int, x: int)
    requires 0 < d
  {
    x / d * d == x
  }

  /** The shares add up to the whole payout exactly when every holder's part is a whole number of units. */
  lemma PayoutIsExactWhen(steps: seq<Step>, payout: I128, shares: seq<(Address, int)>)
    requires 0 <= payout
    requires PayoutFits(Run(EMPTY, steps), payout) && ListsShares(Run(EMPTY, steps), payout, shares)
    ensures var t := Run(EMPTY, steps);
            && 0 < t.meta.value.totalUnits
            && (SumShares(shares) == payout <==>
                  forall h :: h in Positive(t.balances.value) ==>
                    Divides(t.meta.value.totalUnits, payout * t.balances.value[h]))
  {
    var t := Run(EMPTY, steps);
    RunKeepsLedger(steps);
    var held, total := t.balances.value, t.meta.value.totalUnits;
    ListedIsFloored(t, payout, Positive(held), shares);
    SharesExactWhen(Positive(held), total, payout, shares);
    PositiveTotal(held);
    SameMultiple(total, SumShares(shares), payout);
    assert forall h :: h in Positive(held) ==> Positive(held)[h] == held[h];
  }

  lemma SameMultiple(d: int, x: int, y: int)
    requires 0 < d
    ensures d * x == y * d <==> x == y
  {
    assert d * x == x * d;
    if x < y { MulMono(x + 1, y, d); assert (x + 1) * d == x * d + d; }
    if y < x { MulMono(y + 1, x, d); assert (y + 1) * d == y * d + d; }
  }

  lemma {:induction false} SharesExactWhen(m: map<Address, I128>, total: int, payout: int, shares: seq<(Address, int)>)
    requires 0 < total && Floored(m, total, payout, shares)
    ensures total * SumShares(shares) == payout * Total(m) <==> forall h :: h in m ==> Divides(total, payout * m[h])
    decreases |shares|
  {
    if shares != [] {
      var h, rest := shares[0].0, shares[1..];
      SharesExactWhen(m - {h}, total, payout, rest);
      SharesFloor(m - {h}, total, payout, rest);
      TotalSplit(m, h);
      ExactStep(payout, total, m[h], Total(m - {h}), SumShares(rest));
      assert forall k :: k in m <==> k == h || k in m - {h};
    }
  }

  lemma ExactStep(payout: int, total: int, u: int, others: int, sum: int)
    requires 0 < total && total * sum <= payout * others
    ensures total * (payout * u / total + sum) == payout * (u + others)
            <==> Divides(total, payout * u) && total * sum == payout * others
  {
    DivBounds(payout * u, total);
    var q := payout * u / total;
    assert total * (q + sum) == q * total + total * sum;
    assert payout * (u + others) == payout * u + payout * others;
  }

  /** A run with three equal holders, for which a payout of 100 is short of one unit. */
  function ThreeHolders(): seq<Step> {
    [Step({"issuer"}, Initialize("issuer", "", Other, "", 3, false)),
     Step({"issuer"}, Transfer("issuer", "ann", 1)),
     Step({"issuer"}, Transfer("issuer", "carol", 1))]
  }

  lemma ThreeHoldersLedger()
    ensures var t := Run(EMPTY, ThreeHolders());
            t.meta.Some? && t.meta.value.totalUnits == 3
            && t.balances == Some(map["issuer" := 1, "ann" := 1, "carol" := 1])
  {
    var steps := ThreeHolders();
    var one := Apply(EMPTY, {"issuer"}, steps[0].call).0;
    var two := Apply(one, {"issuer"}, steps[1].call).0;
    assert Run(EMPTY, steps[..1]) == one by { assert steps[..1][..0] == []; }
    assert Run(EMPTY, steps[..2]) == two by { assert steps[..2][..1] == steps[..1]; }
    var three := Apply(two, {"issuer"}, steps[2].call).0;
    assert Run(EMPTY, steps) == three by { assert steps[..|steps| - 1] == steps[..2]; }
    assert one.balances.value == map["issuer" := 3];
    assert two.balances.value == map["issuer" := 2, "ann" := 1];
    assert three.balances.value == map["issuer" := 1, "ann" := 1, "carol" := 1];
  }

  /** So distribution is not exact under rounding: here no list of shares adds up to the payout. */
  lemma ThreeHoldersFallShort(shares: seq<(Address, int)>)
    requires Run(EMPTY, ThreeHolders()).balances.Some? && ListsShares(Run(EMPTY, ThreeHolders()), 100, shares)
    ensures SumShares(shares) != 100
  {
    ThreeHoldersLedger();
    PayoutIsExactWhen(ThreeHolders(), 100, shares);
    assert "ann" in Positive(Run(EMPTY, ThreeHolders()).balances.value);
    assert !Divides(3, 100 * 1);
  }

  // ---------- The dust bound is sharp ----------

  /** Different addresses for different numbers. */
  function Holder(i: nat): Address { seq(i, _ => 'x') }

  /** A supply of `n` units of which the issuer, holder 0, has given one each to holders 1 to `k`. */
  function HandOut(n: I128, k: nat): seq<Step> {
    if k == 0 then [Step({Holder(0)}, Initialize(Holder(0), "", Other, "", n, false))]
    else HandOut(n, k - 1) + [Step({Holder(0)}, Transfer(Holder(0), Holder(k), 1))]
  }

  ghost predicate HandedOut(t: Token, n: I128, k: nat) {
    && t.meta.Some? && t.meta.value.totalUnits == n && t.meta.value.issuer == Holder(0)
    && !t.meta.value.frozen && !t.meta.value.requireAuthorization
    && t.balances.Some?
    && (forall a :: a in t.balances.value ==> |a| <= k && a == Holder(|a|))
    && (forall i: nat :: i <= k ==>
          Holder(i) in t.balances.value && t.balances.value[Holder(i)] == if i == 0 then n - k else 1)
  }

  lemma {:induction false} HandOutRuns(n: I128, k: nat)
    requires k < n
    ensures HandedOut(Run(EMPTY, HandOut(n, k)), n, k)
    decreases k
  {
    var steps := HandOut(n, k);
    if k == 0 {
      assert steps[..0] == [];
    } else {
      HandOutRuns(n, k - 1);
      assert steps[..|steps| - 1] == HandOut(n, k - 1);
      OneMoreHolder(Run(EMPTY, HandOut(n, k - 1)), Run(EMPTY, steps), n, k);
    }
  }

  lemma OneMoreHolder(t: Token, u: Token, n: I128, k: nat)
    requires 0 < k < n && HandedOut(t, n, k - 1)
    requires u == Apply(t, {Holder(0)}, Transfer(Holder(0), Holder(k), 1)).0
    ensures HandedOut(u, n, k)
  {
    assert |Holder(0)| == 0 && |Holder(k)| == k;
    assert Holder(k) !in t.balances.value;
    forall i: nat | i <= k
      ensures Holder(i) in u.balances.value && u.balances.value[Holder(i)] == if i == 0 then n - k else 1
    {
      assert |Holder(i)| == i;
    }
  }

  /** With `n` units at `n` holders, a payout of `n - 1` gives nobody anything: short by one less than the holders. */
  lemma DustBoundIsReached(n: I128, steps: seq<Step>, t: Token, shares: seq<(Address, int)>)
    requires 1 <= n && Fits((n - 1) * n) && steps == HandOut(n, n - 1) && t == Run(EMPTY, steps)
    requires t.balances.Some? && ListsShares(t, n - 1, shares)
    ensures |Positive(t.balances.value)| == n && SumShares(shares) == (n - 1) - (|Positive(t.balances.value)| - 1)
  {
    var k: I128 := n - 1;
    assert HandedOut(t, n, k) by { HandOutRuns(n, k); }
    HandedOutDust(steps, t, n, k, shares);
  }

  lemma HandedOutDust(steps: seq<Step>, t: Token, n: I128, payout: I128, shares: seq<(Address, int)>)
    requires t == Run(EMPTY, steps) && 1 <= n && payout == n - 1 && HandedOut(t, n, payout)
    requires Fits(payout * n) && ListsShares(t, payout, shares)
    ensures |Positive(t.balances.value)| == n && SumShares(shares) == 0
  {
    NothingForAnyone(t, n, shares);
    PayoutDust(steps, payout, shares);
    HoldersAreFew(t, n);
  }

  lemma HoldersAreFew(t: Token, n: I128)
    requires 1 <= n && HandedOut(t, n, n - 1)
    ensures |Positive(t.balances.value)| <= n
  {
    var held := Positive(t.balances.value);
    forall a, b | a in held.Keys && b in held.Keys && |a| == |b| ensures a == b {}
    DistinctCodes(held.Keys, (a: Address) => |a|, n);
  }

  lemma NothingForAnyone(t: Token, n: I128, shares: seq<(Address, int)>)
    requires 1 <= n && HandedOut(t, n, n - 1) && ListsShares(t, n - 1, shares)
    requires Fits((n - 1) * n)
    ensures SumShares(shares) == 0
  {
    forall i | 0 <= i < |shares| ensures shares[i].1 == 0 {
      var h := Holders(shares)[i];
      assert h in Elements(Holders(shares));
      assert h == Holder(|h|) && t.balances.value[h] == 1;
      NothingForOne(n);
      assert PayoutShare(t, h, n - 1) == Entitlement(n - 1, 1, n);
    }
    ZeroSum(shares);
  }

  lemma NothingForOne(n: I128)
    requires 1 <= n && Fits((n - 1) * n)
    ensures Entitlement(n - 1, 1, n) == Share(0)
  {
    ShareOfUnits(n - 1, 1, n);
    MulMono(1, n, n - 1);
    DivBounds(n - 1, n);
    CancelLess((n - 1) / n, 1, n);
    CancelLess(-1, (n - 1) / n, n);
  }

  lemma {:induction false} ZeroSum(shares: seq<(Address, int)>)
    requires forall i :: 0 <= i < |shares| ==> shares[i].1 == 0
    ensures SumShares(shares) == 0
    decreases |shares|
  {
    if shares != [] {
      ZeroSum(shares[1..]);
    }
  }

  /**
   `payout_share` in every reachable state: a negative payout and a missing token are refused, a product
   beyond i128 aborts, and every other answer is the exact entitlement rounded down.
   */
  lemma PayoutShareIsExact(steps: seq<Step>, holder: Address, payout: I128)
    ensures var t := Run(EMPTY, steps);
            var r := PayoutShare(t, holder, payout);
            && (r == Denied(InvalidAmount) <==> payout < 0)
            && (r == Denied(NotInitialized) <==> 0 <= payout && t.meta.None?)
            && (0 <= payout && t.meta.Some? ==>
                  && t.balances.Some? && 0 < t.meta.value.totalUnits
                  && var product := payout * Get(t.balances.value, holder);
                     r == if product > I128_MAX then Trapped else Share(product / t.meta.value.totalUnits))
  {
    RunKeepsLedger(steps);
    var t := Run(EMPTY, steps);
    if 0 <= payout && t.meta.Some? {
      EntriesBelowTotal(t.balances.value, holder, holder);
      ShareOfUnits(payout, Get(t.balances.value, holder), t.meta.value.totalUnits);
    }
  }

  lemma ShareOfUnits(payout: I128, units: I128, total: I128)
    requires 0 <= payout && 0 <= units <= total && 0 < total
    ensures 0 <= payout * units
    ensures Entitlement(payout, units, total)
            == if payout * units > I128_MAX then Trapped else Share(payout * units / total)
    ensures units == 0 ==> payout * units / total == 0
  {
    MulMono(0, units, payout);
    var product := payout * units;
    DivMono(0, product, total);
    DivBounds(product, total);
    MulMono(1, total, product / total);
    if units == 0 { DivOfMultiple(0, total); }
  }

  /** Every payout whose product with the supply fits is computed for every holder. */
  lemma FittingPayoutNeverTraps(steps: seq<Step>, payout: I128, holder: Address)
    requires 0 <= payout
    requires PayoutFits(Run(EMPTY, steps), payout)
    ensures var t := Run(EMPTY, steps);
            PayoutShare(t, holder, payout) == Share(ShareOf(t, holder, payout))
  {
    RunKeepsLedger(steps);
    ShareIsFloor(Run(EMPTY, steps), payout, holder);
  }

  lemma ShareIsFloor(t: Token, payout: I128, holder: Address)
    requires LedgerInv(t) && 0 <= payout && PayoutFits(t, payout)
    ensures PayoutShare(t, holder, payout) == Share(ShareOf(t, holder, payout))
  {
    EntriesBelowTotal(t.balances.value, holder, holder);
    var units := Get(t.balances.value, holder);
    ShareOfUnits(payout, units, t.meta.value.totalUnits);
    MulMono(units, t.meta.value.totalUnits, payout);
  }

  /** `shares` lists the holders of `m` once each, with their floored part of the payout. */
  ghost predicate Floored(m: map<Address, I128>, total: int, payout: int, shares: seq<(Address, int)>)
    requires 0 < total
    decreases |shares|
  {
    if shares == [] then m == map[]
    else
      var h := shares[0].0;
      h in m && shares[0].1 == payout * m[h] / total && Floored(m - {h}, total, payout, shares[1..])
  }

  /** Summing the floors loses less than one unit of `total` per share. */
  lemma {:induction false} SharesFloor(m: map<Address, I128>, total: int, payout: int, shares: seq<(Address, int)>)
    requires 0 < total && Floored(m, total, payout, shares)
    ensures |shares| == |m|
    ensures payout * Total(m) - |m| * (total - 1) <= total * SumShares(shares) <= payout * Total(m)
    decreases |shares|
  {
    if shares != [] {
      var h, rest := shares[0].0, shares[1..];
      SharesFloor(m - {h}, total, payout, rest);
      TotalSplit(m, h);
      assert (m - {h}).Keys == m.Keys - {h};
      FloorStep(payout, total, m[h], Total(m - {h}), SumShares(rest), |m - {h}|);
    }
  }

  lemma {:induction false} ListedIsFloored(t: Token, payout: I128, m: map<Address, I128>, shares: seq<(Address, int)>)
    requires LedgerInv(t) && 0 <= payout && PayoutFits(t, payout)
    requires Distinct(Holders(shares)) && Elements(Holders(shares)) == m.Keys
    requires forall h :: h in m ==> m[h] == Get(t.balances.value, h)
    requires forall i :: 0 <= i < |shares| ==> PayoutShare(t, shares[i].0, payout) == Share(shares[i].1)
    ensures Floored(m, t.meta.value.totalUnits, payout, shares)
    decreases |shares|
  {
    if shares == [] {
      assert m.Keys == {};
    } else {
      var h, rest := shares[0].0, shares[1..];
      assert Holders(shares) == [h] + Holders(rest);
      assert Holders(rest) == Holders(shares)[1..];
      DropFirst(Holders(shares), m.Keys);
      assert (m - {h}).Keys == m.Keys - {h};
      ShareIsFloor(t, payout, h);
      ListedIsFloored(t, payout, m - {h}, rest);
    }
  }

  lemma DropFirst(s: seq<Address>, keys: set<Address>)
    requires s != [] && Distinct(s) && Elements(s) == keys
    ensures s[0] in keys
    ensures Distinct(s[1..]) && Elements(s[1..]) == keys - {s[0]}
  {
    var rest := s[1..];
    assert s[0] !in rest by {
      forall i | 0 <= i < |rest| ensures rest[i] != s[0] {
        assert rest[i] == s[i + 1];
      }
    }
    assert s == [s[0]] + rest;
    assert s[0] in Elements(s);
    forall a ensures a in Elements(rest) <==> a in keys - {s[0]} {
      assert a in Elements(s) <==> a == s[0] || a in rest;
    }
  }

  lemma FloorStep(payout: int, total: int, u: int, others: int, sum: int, n: int)
    requires 0 < total
    requires payout * others - n * (total - 1) <= total * sum <= payout * others
    ensures payout * (u + others) - (n + 1) * (total - 1)
            <= total * (payout * u / total + sum)
            <= payout * (u + others)
  {
    var q := payout * u / total;
    DivBounds(payout * u, total);
    assert total * (q + sum) == q * total + total * sum;
    assert payout * (u + others) == payout * u + payout * others;
    assert (n + 1) * (total - 1) == n * (total - 1) + total - 1;
  }

  lemma DividedBounds(total: int, payout: int, sum: int, n: int)
    requires 0 < total && 0 < n
    requires payout * total - n * (total - 1) <= total * sum <= payout * total
    ensures payout - n < sum <= payout
  {
    assert (payout - n) * total == payout * total - n * total;
    assert n * (total - 1) == n * total - n;
    assert (payout + 1) * total == payout * total + total;
    CancelLess(payout - n, sum, total);
    CancelLess(sum, payout + 1, total);
  }

  lemma {:induction false} PositiveTotal(m: map<Address, I128>)
    requires NonNegative(m)
    ensures Total(Positive(m)) == Total(m)
    decreases |m|
  {
    if m != map[] {
      var k :| k in m;
      PositiveTotal(m - {k});
      TotalSplit(m, k);
      if m[k] > 0 {
        TotalSplit(Positive(m), k);
        assert Positive(m) - {k} == Positive(m - {k});
      } else {
        assert Positive(m) == Positive(m - {k});
      }
    }
  }

  /**
   Moving units between two addresses changes their joint entitlement by at most one unit, and
   splitting a holding with an address that had nothing never gains.
   */
  lemma SplittingNeverGains(steps: seq<Step>, auth: set<Address>, from: Address, to: Address, units: I128, payout: I128)
    requires 0 <= payout && from != to
    requires PayoutFits(Run(EMPTY, steps), payout)
    requires Apply(Run(EMPTY, steps), auth, Call.Transfer(from, to, units)).1.Ok?
    ensures var t := Run(EMPTY, steps);
            var u := Apply(t, auth, Call.Transfer(from, to, units)).0;
            && PayoutShare(t, from, payout).Share? && PayoutShare(t, to, payout).Share?
            && PayoutShare(u, from, payout).Share? && PayoutShare(u, to, payout).Share?
            && var before := PayoutShare(t, from, payout).units + PayoutShare(t, to, payout).units;
               var after := PayoutShare(u, from, payout).units + PayoutShare(u, to, payout).units;
               && before - 1 <= after <= before + 1
               && (Get(t.balances.value, to) == 0 ==> after <= before)
  {
    var t := Run(EMPTY, steps);
    var call := Call.Transfer(from, to, units);
    var u := Apply(t, auth, call).0;
    var after := steps + [Step(auth, call)];
    assert after[..|steps|] == steps;
    assert Run(EMPTY, after) == u;
    FittingPayoutNeverTraps(steps, payout, from);
    FittingPayoutNeverTraps(steps, payout, to);
    FittingPayoutNeverTraps(after, payout, from);
    FittingPayoutNeverTraps(after, payout, to);
    var x, y, total := Get(t.balances.value, from), Get(t.balances.value, to), t.meta.value.totalUnits;
    RunKeepsLedger(steps);
    RegroupedFloors(payout, x, y, units, total);
  }

  lemma RegroupedFloors(p: int, x: int, y: int, u: int, d: int)
    requires 0 < d
    ensures var before, after := p * x / d + p * y / d, p * (x - u) / d + p * (y + u) / d;
            before - 1 <= after <= before + 1 && (y == 0 ==> after <= before)
  {
    FloorOfSum(p * x, p * y, d);
    FloorOfSum(p * (x - u), p * (y + u), d);
    assert p * (x - u) == p * x - p * u;
    assert p * (y + u) == p * y + p * u;
    if y == 0 {
      assert p * y == 0;
    }
  }
}
