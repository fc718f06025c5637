/**
 The real-world-asset token contract (contracts/rwa_token/src/lib.rs).

 `Token` is the contract's instance storage and `Apply` the meaning of one invocation. The class
 `RwaTokenContract` has the contract's fields and methods; each method is proved to do exactly what
 `Apply` says. Runs of invocations are then reasoned about on `Token` values.
 */
module RwaToken {
  import opened Wrappers
  import opened Balances

  datatype AssetType = Invoice | Commodity | RealEstate | Other

  datatype Meta = Meta(
    issuer: Address,
    assetRef: string,
    assetType: AssetType,
    description: string,
    totalUnits: I128,
    distributed: bool,
    frozen: bool,
    requireAuthorization: bool)

  datatype Error =
    | AlreadyInitialized
    | NotInitialized
    | InvalidAmount
    | InsufficientUnits
    | AlreadyDistributed
    | TransfersFrozen
    | NotAuthorized

  /** `Trap` aborts the invocation: a missing `require_auth`, or arithmetic that leaves i128. */
  datatype Outcome = Ok | Err(error: Error) | Trap

  datatype Token = Token(
    meta: Option<Meta>,
    balances: Option<map<Address, I128>>,
    authorized: Option<map<Address, bool>>)

  const EMPTY: Token := Token(None, None, None)

  datatype Call =
    | Initialize(issuer: Address, assetRef: string, assetType: AssetType, description: string,
                 totalUnits: I128, requireAuthorization: bool)
    | Transfer(from: Address, to: Address, units: I128)
    | MarkDistributed
    | Freeze
    | Unfreeze
    | Authorize(address: Address)
    | RevokeAuthorization(address: Address)

  // ---------- What one invocation means ----------

  predicate Allowed(t: Token, a: Address) {
    var listed := t.authorized.GetOr(map[]);
    a in listed && listed[a]
  }

  /** `auth` holds the addresses that authorized this invocation. */
  function Apply(t: Token, auth: set<Address>, call: Call): (Token, Outcome) {
    match call
    case Initialize(issuer, assetRef, assetType, description, totalUnits, requireAuthorization) =>
      if t.meta.Some? then (t, Err(AlreadyInitialized))
      else if totalUnits <= 0 then (t, Err(InvalidAmount))
      else if issuer !in auth then (t, Trap)
      else
        (Token(Some(Meta(issuer, assetRef, assetType, description, totalUnits, false, false, requireAuthorization)),
               Some(map[issuer := totalUnits]),
               if requireAuthorization then Some(map[issuer := true]) else t.authorized), Ok)
    case Transfer(from, to, units) => ApplyTransfer(t, auth, from, to, units)
    case _ =>
      if t.meta.None? then (t, Err(NotInitialized))
      else if t.meta.value.issuer !in auth then (t, Trap)
      else ApplyAdmin(t, t.meta.value, call)
  }

  function ApplyTransfer(t: Token, auth: set<Address>, from: Address, to: Address, units: I128): (Token, Outcome) {
    if units <= 0 then (t, Err(InvalidAmount))
    else if from !in auth then (t, Trap)
    else if t.meta.None? then (t, Err(NotInitialized))
    else if t.meta.value.frozen then (t, Err(TransfersFrozen))
    else if t.meta.value.requireAuthorization && !(Allowed(t, from) && Allowed(t, to)) then (t, Err(NotAuthorized))
    else if t.balances.None? then (t, Err(NotInitialized))
    else
      var held := t.balances.value;
      if Get(held, from) < units then (t, Err(InsufficientUnits))
      else
        var moved := Moved(held, from, to, units);
        if !Fits(moved[to]) then (t, Trap)
        else (t.(balances := Some(moved)), Ok)
  }

  /** The issuer-only calls, once the issuer has authorized them. */
  function ApplyAdmin(t: Token, meta: Meta, call: Call): (Token, Outcome)
    requires !call.Initialize? && !call.Transfer?
  {
    match call
    case MarkDistributed =>
      if meta.distributed then (t, Err(AlreadyDistributed))
      else (t.(meta := Some(meta.(distributed := true))), Ok)
    case Freeze => (t.(meta := Some(meta.(frozen := true))), Ok)
    case Unfreeze => (t.(meta := Some(meta.(frozen := false))), Ok)
    case Authorize(a) =>
      if !meta.requireAuthorization then (t, Ok)
      else (t.(authorized := Some(t.authorized.GetOr(map[])[a := true])), Ok)
    case RevokeAuthorization(a) =>
      if !meta.requireAuthorization then (t, Ok)
      else (t.(authorized := Some(t.authorized.GetOr(map[])[a := false])), Ok)
  }

  // ---------- The contract ----------

  class RwaTokenContract {
    var meta: Option<Meta>
    var balances: Option<map<Address, I128>>
    var authorized: Option<map<Address, bool>>

    function Contents(): Token
      reads this
    {
      Token(meta, balances, authorized)
    }

    constructor ()
      ensures Contents() == EMPTY
    {
      meta, balances, authorized := None, None, None;
    }

    method Initialize(auth: set<Address>, issuer: Address, assetRef: string, assetType: AssetType,
                      description: string, totalUnits: I128, requireAuthorization: bool)
      returns (r: Outcome)
      modifies this
      ensures (Contents(), r) == Apply(old(Contents()), auth,
                                       Call.Initialize(issuer, assetRef, assetType, description, totalUnits,
                                                       requireAuthorization))
    {
      if meta.Some? { return Err(AlreadyInitialized); }
      if totalUnits <= 0 { return Err(InvalidAmount); }
      if issuer !in auth { return Trap; }
      if requireAuthorization {
        authorized := Some(map[issuer := true]);
      }
      meta := Some(Meta(issuer, assetRef, assetType, description, totalUnits, false, false, requireAuthorization));
      balances := Some(map[issuer := totalUnits]);
      r := Ok;
    }

    method CheckAuthorized(a: Address) returns (ok: bool)
      ensures ok == Allowed(Contents(), a)
    {
      var listed := authorized.GetOr(map[]);
      ok := a in listed && listed[a];
    }

    method Transfer(auth: set<Address>, from: Address, to: Address, units: I128) returns (r: Outcome)
      modifies this`balances
      ensures (Contents(), r) == Apply(old(Contents()), auth, Call.Transfer(from, to, units))
    {
      if units <= 0 { return Err(InvalidAmount); }
      if from !in auth { return Trap; }
      if meta.None? { return Err(NotInitialized); }
      if meta.value.frozen { return Err(TransfersFrozen); }
      if meta.value.requireAuthorization {
        var ok := CheckAuthorized(from);
        if !ok { return Err(NotAuthorized); }
        ok := CheckAuthorized(to);
        if !ok { return Err(NotAuthorized); }
      }
      if balances.None? { return Err(NotInitialized); }
      var held := balances.value;
      var fromBalance := Get(held, from);
      if fromBalance < units { return Err(InsufficientUnits); }
      held := held[from := fromBalance - units];
      var toBalance := Get(held, to);
      if !Fits(toBalance + units) { return Trap; }
      held := held[to := toBalance + units];
      balances := Some(held);
      r := Ok;
    }

    method MarkDistributed(auth: set<Address>) returns (r: Outcome)
      modifies this`meta
      ensures (Contents(), r) == Apply(old(Contents()), auth, Call.MarkDistributed)
    {
      if meta.None? { return Err(NotInitialized); }
      if meta.value.issuer !in auth { return Trap; }
      if meta.value.distributed { return Err(AlreadyDistributed); }
      meta := Some(meta.value.(distributed := true));
      r := Ok;
    }

    method Freeze(auth: set<Address>) returns (r: Outcome)
      modifies this`meta
      ensures (Contents(), r) == Apply(old(Contents()), auth, Call.Freeze)
    {
      if meta.None? { return Err(NotInitialized); }
      if meta.value.issuer !in auth { return Trap; }
      meta := Some(meta.value.(frozen := true));
      r := Ok;
    }

    method Unfreeze(auth: set<Address>) returns (r: Outcome)
      modifies this`meta
      ensures (Contents(), r) == Apply(old(Contents()), auth, Call.Unfreeze)
    {
      if meta.None? { return Err(NotInitialized); }
      if meta.value.issuer !in auth { return Trap; }
      meta := Some(meta.value.(frozen := false));
      r := Ok;
    }

    method Authorize(auth: set<Address>, address: Address) returns (r: Outcome)
      modifies this`authorized
      ensures (Contents(), r) == Apply(old(Contents()), auth, Call.Authorize(address))
    {
      if meta.None? { return Err(NotInitialized); }
      if meta.value.issuer !in auth { return Trap; }
      if !meta.value.requireAuthorization { return Ok; }
      authorized := Some(authorized.GetOr(map[])[address := true]);
      r := Ok;
    }

    method RevokeAuthorization(auth: set<Address>, address: Address) returns (r: Outcome)
      modifies this`authorized
      ensures (Contents(), r) == Apply(old(Contents()), auth, Call.RevokeAuthorization(address))
    {
      if meta.None? { return Err(NotInitialized); }
      if meta.value.issuer !in auth { return Trap; }
      if !meta.value.requireAuthorization { return Ok; }
      authorized := Some(authorized.GetOr(map[])[address := false]);
      r := Ok;
    }

    /** Holders with a positive balance; the host's key order is one of the orders this loop may take. */
    method GetHolders() returns (holders: Option<seq<Address>>)
      ensures holders.None? <==> balances.None?
      ensures holders.Some? ==> Distinct(holders.value)
      ensures holders.Some? ==> forall a :: a in holders.value <==> a in balances.value && balances.value[a] > 0
    {
      if balances.None? { return None; }
      var listed: seq<Address> := [];
      var rest := balances.value.Keys;
      while rest != {}
        invariant rest <= balances.value.Keys
        invariant Distinct(listed) && Elements(listed) == Positive(balances.value).Keys - rest
        decreases |rest|
      {
        var holder :| holder in rest;
        rest := rest - {holder};
        if balances.value[holder] > 0 {
          DistinctAppend(listed, holder);
          listed := listed + [holder];
        }
      }
      assert forall a :: a in listed <==> a in Elements(listed);
      holders := Some(listed);
    }

    method AllPayoutShares(payout: I128) returns (r: SharesResult)
      ensures r == Refused(InvalidAmount) <==> payout < 0
      ensures payout >= 0 ==> (r == Refused(NotInitialized) <==> meta.None? || balances.None?)
      ensures r == Aborted <==> payout >= 0 && meta.Some? && balances.Some? && SomeShareTraps(Contents(), payout)
      ensures r.Shares? ==>
                meta.Some? && balances.Some? && ListsShares(Contents(), payout, r.shares)
      ensures r.Shares? ==>
                forall a :: a in Holders(r.shares) <==> a in balances.value && balances.value[a] > 0
    {
      if payout < 0 { return Refused(InvalidAmount); }
      if meta.None? || balances.None? { return Refused(NotInitialized); }
      var held, total := balances.value, meta.value.totalUnits;
      var shares: seq<(Address, int)> := [];
      var rest := held.Keys;
      ghost var t := Contents();
      while rest != {}
        invariant rest <= held.Keys
        invariant ListsSharesOf(t, payout, Positive(held).Keys - rest, shares)
        decreases |rest|
      {
        var holder :| holder in rest;
        ghost var done := Positive(held).Keys - rest;
        rest := rest - {holder};
        if held[holder] > 0 {
          var share := Entitlement(payout, held[holder], total);
          assert holder in Positive(held) && PayoutShare(t, holder, payout) == share;
          if share.Trapped? { return Aborted; }
          AppendShare(t, payout, done, shares, holder, share.units);
          assert done + {holder} == Positive(held).Keys - rest;
          shares := shares + [(holder, share.units)];
        } else {
          assert done == Positive(held).Keys - rest;
        }
      }
      assert Positive(held).Keys - rest == Positive(held).Keys;
      NoneTraps(t, payout, shares);
      EveryHolderIsListed(t, payout, shares);
      r := Shares(shares);
    }
  }

  // ---------- Payout shares ----------

  datatype ShareResult = Share(units: int) | Denied(error: Error) | Trapped
  datatype SharesResult = Shares(shares: seq<(Address, int)>) | Refused(error: Error) | Aborted

  /** Rust's integer division, which truncates toward zero. */
  function Quotient(a: int, b: int): int
    requires b != 0
  {
    if (a >= 0) == (b > 0) then Abs(a) / Abs(b) else -(Abs(a) / Abs(b))
  }

  function Abs(x: int): nat { if x < 0 then -x else x }

  /** `payout * units / total` in checked i128 arithmetic. */
  function Entitlement(payout: I128, units: I128, total: I128): (r: ShareResult)
    ensures !r.Denied?
  {
    if !Fits(payout * units) || total == 0 then Trapped
    else
      var share := Quotient(payout * units, total);
      if Fits(share) then Share(share) else Trapped
  }

  function PayoutShare(t: Token, holder: Address, payout: I128): ShareResult {
    if payout < 0 then Denied(InvalidAmount)
    else if t.meta.None? || t.balances.None? then Denied(NotInitialized)
    else
      var units := Get(t.balances.value, holder);
      if units == 0 then Share(0)
      else Entitlement(payout, units, t.meta.value.totalUnits)
  }

  function Positive(m: map<Address, I128>): map<Address, I128> {
    map a | a in m && m[a] > 0 :: m[a]
  }

  function Holders(shares: seq<(Address, int)>): seq<Address> {
    seq(|shares|, i requires 0 <= i < |shares| => shares[i].0)
  }

  ghost predicate Distinct(s: seq<Address>) {
    forall i, j :: 0 <= i < j < |s| ==> s[i] != s[j]
  }

  ghost function Elements(s: seq<Address>): set<Address> {
    set a | a in s
  }

  lemma DistinctAppend(s: seq<Address>, a: Address)
    requires Distinct(s) && a !in s
    ensures Distinct(s + [a]) && Elements(s + [a]) == Elements(s) + {a}
  {
    forall x ensures x in Elements(s + [a]) <==> x in Elements(s) + {a} {
      assert x in s + [a] <==> x in s || x in [a];
    }
  }

  ghost predicate SomeShareTraps(t: Token, payout: I128)
    requires t.balances.Some?
  {
    exists h :: h in Positive(t.balances.value) && PayoutShare(t, h, payout).Trapped?
  }

  /** `shares` names each of `holders` once, with its own `payout_share`. */
  ghost predicate ListsSharesOf(t: Token, payout: I128, holders: set<Address>, shares: seq<(Address, int)>) {
    && Distinct(Holders(shares))
    && Elements(Holders(shares)) == holders
    && forall i :: 0 <= i < |shares| ==> PayoutShare(t, Holders(shares)[i], payout) == Share(shares[i].1)
  }

  /** `shares` covers exactly the positive holders. */
  ghost predicate ListsShares(t: Token, payout: I128, shares: seq<(Address, int)>)
    requires t.balances.Some?
  {
    ListsSharesOf(t, payout, Positive(t.balances.value).Keys, shares)
  }

  lemma AppendShare(t: Token, payout: I128, holders: set<Address>, shares: seq<(Address, int)>, a: Address, units: int)
    requires ListsSharesOf(t, payout, holders, shares)
    requires a !in holders && PayoutShare(t, a, payout) == Share(units)
    ensures ListsSharesOf(t, payout, holders + {a}, shares + [(a, units)])
  {
    var more := shares + [(a, units)];
    assert a in Holders(shares) ==> a in Elements(Holders(shares));
    DistinctAppend(Holders(shares), a);
    assert Holders(more) == Holders(shares) + [a];
    forall i | 0 <= i < |more| ensures PayoutShare(t, Holders(more)[i], payout) == Share(more[i].1) {
      if i < |shares| { assert Holders(more)[i] == Holders(shares)[i]; }
    }
  }

  lemma EveryHolderIsListed(t: Token, payout: I128, shares: seq<(Address, int)>)
    requires t.balances.Some? && ListsShares(t, payout, shares)
    ensures forall a :: a in Holders(shares) <==> a in t.balances.value && t.balances.value[a] > 0
  {
    forall a ensures a in Holders(shares) <==> a in Elements(Holders(shares)) {}
  }

  lemma NoneTraps(t: Token, payout: I128, shares: seq<(Address, int)>)
    requires t.balances.Some? && ListsShares(t, payout, shares)
    ensures !SomeShareTraps(t, payout)
  {
    forall h | h in Positive(t.balances.value) ensures PayoutShare(t, h, payout).Share? {
      assert h in Elements(Holders(shares));
    }
  }
}
