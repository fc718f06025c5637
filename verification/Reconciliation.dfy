/**
 The ledger-to-chain reconciliation pass (backend/src/jobs/reconciliation.job.ts) over a fixed
 snapshot of the books and the chain, with its per-order custody cache, and the two repositories it
 may report into: in memory (backend/src/modules/payments/payment.repository.ts) and in Postgres
 (backend/src/modules/payments/pg-payment.repository.ts).
 */
module Reconciliation {
  import opened Wrappers

  datatype Transition = Transition(id: string, orderId: string, kind: string, entries: string, hash: Option<string>)

  /** What the chain says about a transaction; attribution only from adapters that keep it. */
  datatype Observation = Observation(status: string, orderId: Option<string>, kind: Option<string>)

  const SUCCESS := "success"
  const CONFIRMED := "confirmed"

  datatype EscrowRecord = EscrowRecord(state: string, contractId: Option<string>)
  datatype CustodyValue = CustodyValue(amount: Option<string>, currency: Option<string>, token: Option<string>)
  datatype Snapshot = Snapshot(
    state: string, orderId: Option<string>, deliveryConfirmed: bool, value: Option<CustodyValue>)
  datatype Order = Order(amount: string, currency: string, status: string)

  /** The repository and the gateway during one pass; the two rules of other modules are parameters. */
  datatype Books = Books(
    isBalanced: string -> bool,
    touchesChain: string -> bool,
    transactions: map<string, Observation>,
    escrows: map<string, EscrowRecord>,
    snapshots: map<string, Snapshot>,
    orders: map<string, Order>)

  datatype Reason =
    | NotBalanced
    | TransactionNotFound
    | TransactionStatus(status: string)
    | MetadataMismatch
    | WrongOrder(owner: string)
    | StateMismatch(onChain: string, recorded: string)
    | InexpressibleToken(token: Option<string>)
    | ValueMismatch(held: CustodyValue, order: Order)
    | ConfirmationMissing

  datatype Comparison = Comparison(recorded: Option<string>, onChain: Option<Snapshot>, order: Option<Order>)

  function Lookup<V>(m: map<string, V>, k: string): Option<V> {
    if k in m then Some(m[k]) else None
  }

  /** An absent or empty identifier is not looked up. */
  function LookupById<V>(m: map<string, V>, k: Option<string>): Option<V> {
    if k.Some? && k.value != "" then Lookup(m, k.value) else None
  }

  function CheckLedgerAndChain(b: Books, t: Transition): Option<Reason> {
    if !b.isBalanced(t.entries) then Some(NotBalanced)
    else if !b.touchesChain(t.kind) then None
    else
      match LookupById(b.transactions, t.hash)
      case None => Some(TransactionNotFound)
      case Some(observed) =>
        if observed.status != SUCCESS then Some(TransactionStatus(observed.status))
        else if (observed.orderId.Some? && observed.orderId.value != t.orderId)
                || (observed.kind.Some? && observed.kind.value != t.kind) then Some(MetadataMismatch)
        else None
  }

  /** What one custody read brings back. */
  function CustodyOf(b: Books, orderId: string): Comparison {
    var escrow := Lookup(b.escrows, orderId);
    Comparison(
      if escrow.Some? then Some(escrow.value.state) else None,
      if escrow.Some? then LookupById(b.snapshots, escrow.value.contractId) else None,
      Lookup(b.orders, orderId))
  }

  function CheckCustodyValue(onChain: Snapshot, order: Option<Order>): Option<Reason> {
    if onChain.value.None? || order.None? then None
    else
      var held := onChain.value.value;
      if held.amount.None? || held.currency.None? then Some(InexpressibleToken(held.token))
      else if held.currency.value != order.value.currency || held.amount.value != order.value.amount then
        Some(ValueMismatch(held, order.value))
      else if order.value.status == CONFIRMED && !onChain.deliveryConfirmed then Some(ConfirmationMissing)
      else None
  }

  function CheckComparison(t: Transition, pair: Comparison): Option<Reason> {
    if pair.onChain.None? || pair.recorded.None? then None
    else
      var onChain := pair.onChain.value;
      if onChain.orderId.Some? && onChain.orderId.value != t.orderId then Some(WrongOrder(onChain.orderId.value))
      else if onChain.state != pair.recorded.value then Some(StateMismatch(onChain.state, pair.recorded.value))
      else CheckCustodyValue(onChain, pair.order)
  }

  /** The reason a transition is flagged, read straight from the books: no cache. */
  function ReasonFor(b: Books, t: Transition): Option<Reason> {
    var first := CheckLedgerAndChain(b, t);
    if first.Some? then first else CheckComparison(t, CustodyOf(b, t.orderId))
  }

  datatype Mismatch = Mismatch(orderId: string, transitionId: string, reason: Reason, resolved: bool)

  /** The cacheless pass: every transition with a reason, in order. */
  function Flagged(b: Books, ts: seq<Transition>): seq<Mismatch> {
    if ts == [] then []
    else
      var t := ts[|ts| - 1];
      var reason := ReasonFor(b, t);
      Flagged(b, ts[..|ts| - 1])
      + (if reason.Some? then [Mismatch(t.orderId, t.id, reason.value, false)] else [])
  }

  // ---------- The repositories ----------

  function Ids(ms: seq<Mismatch>): set<string> {
    set i | 0 <= i < |ms| :: ms[i].transitionId
  }

  /** Open records the run no longer reports become resolved. */
  function Settle(stored: seq<Mismatch>, active: set<string>): seq<Mismatch> {
    seq(|stored|, i requires 0 <= i < |stored| =>
      if !stored[i].resolved && stored[i].transitionId !in active then stored[i].(resolved := true) else stored[i])
  }

  function FilterOut(ms: seq<Mismatch>, existing: set<string>): seq<Mismatch> {
    if ms == [] then []
    else
      FilterOut(ms[..|ms| - 1], existing)
      + (if ms[|ms| - 1].transitionId !in existing then [ms[|ms| - 1]] else [])
  }

  /** In memory: only transitions without any record, open or resolved, get a new one. */
  function Replaced(stored: seq<Mismatch>, found: seq<Mismatch>): seq<Mismatch> {
    var settled := Settle(stored, Ids(found));
    settled + FilterOut(found, Ids(settled))
  }

  function Unresolved(stored: seq<Mismatch>): seq<Mismatch> {
    if stored == [] then []
    else
      Unresolved(stored[..|stored| - 1])
      + (if !stored[|stored| - 1].resolved then [stored[|stored| - 1]] else [])
  }

  /** The insert that the partial unique index turns into nothing when the transition has an open row. */
  function Inserted(rows: seq<Mismatch>, m: Mismatch): seq<Mismatch> {
    if m.transitionId in Ids(Unresolved(rows)) then rows else rows + [m.(resolved := false)]
  }

  function InsertedAll(rows: seq<Mismatch>, found: seq<Mismatch>): seq<Mismatch> {
    if found == [] then rows else Inserted(InsertedAll(rows, found[..|found| - 1]), found[|found| - 1])
  }

  /** In Postgres: every found transition without an open row gets a new one. */
  function ReplacedRows(stored: seq<Mismatch>, found: seq<Mismatch>): seq<Mismatch> {
    InsertedAll(Settle(stored, Ids(found)), found)
  }

  /** What the wired implementation records (backend/src/app.ts:601-603). */
  function Recorded(persistent: bool, stored: seq<Mismatch>, found: seq<Mismatch>): seq<Mismatch> {
    if persistent then ReplacedRows(stored, found) else Replaced(stored, found)
  }

  class InMemoryPaymentRepository {
    var mismatches: seq<Mismatch>

    constructor ()
      ensures mismatches == []
    {
      mismatches := [];
    }

    method ReplaceMismatches(found: seq<Mismatch>)
      modifies this
      ensures mismatches == Replaced(old(mismatches), found)
    {
      var resolved := Settle(mismatches, Ids(found));
      mismatches := resolved + FilterOut(found, Ids(resolved));
    }
  }

  class PgPaymentRepository {
    var rows: seq<Mismatch>

    constructor ()
      ensures rows == []
    {
      rows := [];
    }

    /** One transaction: an update of the open rows, then an insert for each found transition. */
    method ReplaceMismatches(found: seq<Mismatch>)
      modifies this
      ensures rows == ReplacedRows(old(rows), found)
    {
      var next := Settle(rows, Ids(found));
      for i := 0 to |found|
        invariant next == InsertedAll(Settle(old(rows), Ids(found)), found[..i])
        invariant rows == old(rows)
      {
        assert found[..i + 1][..i] == found[..i];
        var open := FindOpen(next, found[i].transitionId);
        if !open {
          next := next + [found[i].(resolved := false)];
        }
      }
      assert found[..|found|] == found;
      rows := next;
    }
  }

  /** The interface the job is given: one implementation or the other. */
  datatype PaymentRepository = InMemory(memory: InMemoryPaymentRepository) | Postgres(database: PgPaymentRepository) {
    ghost function Footprint(): set<object> {
      match this
      case InMemory(memory) => {memory}
      case Postgres(database) => {database}
    }

    function Records(): seq<Mismatch>
      reads Footprint()
    {
      match this
      case InMemory(memory) => memory.mismatches
      case Postgres(database) => database.rows
    }

    method ReplaceMismatches(found: seq<Mismatch>)
      modifies Footprint()
      ensures Records() == Recorded(Postgres?, old(Records()), found)
    {
      match this
      case InMemory(memory) => memory.ReplaceMismatches(found);
      case Postgres(database) => database.ReplaceMismatches(found);
    }

    /** The open records in their order: a record is listed exactly when it is stored and open. */
    method ListUnresolvedMismatches() returns (open: seq<Mismatch>)
      ensures open == Unresolved(Records())
      ensures forall m :: m in open <==> m in Records() && !m.resolved
    {
      open := ListOpen(Records());
    }
  }

  method ListOpen(records: seq<Mismatch>) returns (open: seq<Mismatch>)
    ensures open == Unresolved(records)
    ensures forall m :: m in open <==> m in records && !m.resolved
  {
    open := [];
    for i := 0 to |records|
      invariant open == Unresolved(records[..i])
      invariant forall m :: m in open <==> m in records[..i] && !m.resolved
    {
      assert records[..i + 1][..i] == records[..i];
      assert records[..i + 1] == records[..i] + [records[i]];
      if !records[i].resolved {
        open := open + [records[i]];
      }
    }
    assert records[..|records|] == records;
  }

  /** The lookup in the index of open rows. */
  method FindOpen(rows: seq<Mismatch>, id: string) returns (found: bool)
    ensures found <==> id in Ids(Unresolved(rows))
  {
    found := false;
    for i := 0 to |rows|
      invariant found <==> id in Ids(Unresolved(rows[..i]))
    {
      var last := if !rows[i].resolved then [rows[i]] else [];
      assert rows[..i + 1][..i] == rows[..i];
      IdsAppend(Unresolved(rows[..i]), last, id);
      assert last != [] ==> last[0].transitionId == rows[i].transitionId;
      if !rows[i].resolved && rows[i].transitionId == id {
        found := true;
      }
    }
    assert rows[..|rows|] == rows;
  }

  lemma IdsAppend(a: seq<Mismatch>, b: seq<Mismatch>, id: string)
    ensures id in Ids(a + b) <==> id in Ids(a) || id in Ids(b)
  {
    var c := a + b;
    if id in Ids(c) {
      var i :| 0 <= i < |c| && c[i].transitionId == id;
      assert if i < |a| then a[i].transitionId == id else b[i - |a|].transitionId == id;
    }
    if id in Ids(a) {
      var i :| 0 <= i < |a| && a[i].transitionId == id;
      assert c[i].transitionId == id;
    }
    if id in Ids(b) {
      var i :| 0 <= i < |b| && b[i].transitionId == id;
      assert c[|a| + i].transitionId == id;
    }
  }

  // ---------- The job ----------

  datatype Report = Report(matchedStatus: bool, checked: nat, matched: int, unresolved: nat, mismatches: seq<Mismatch>)

  /** The only way to custody: the two repository reads and the call over the network. */
  class CustodyReader {
    /** The orders whose custody was read, in order. */
    ghost var log: seq<string>

    constructor ()
      ensures this.log == []
    {
      this.log := [];
    }

    method Read(b: Books, orderId: string) returns (pair: Comparison)
      modifies this
      ensures pair == CustodyOf(b, orderId)
      ensures this.log == old(this.log) + [orderId]
    {
      this.log := this.log + [orderId];
      var escrow := Lookup(b.escrows, orderId);
      var onChain := None;
      if escrow.Some? {
        onChain := LookupById(b.snapshots, escrow.value.contractId);
      }
      pair := Comparison(if escrow.Some? then Some(escrow.value.state) else None, onChain, Lookup(b.orders, orderId));
    }
  }

  class ReconciliationJob {
    const repository: PaymentRepository
    const custody: CustodyReader
    var lastUnresolvedCount: nat

    constructor (repository: PaymentRepository, custody: CustodyReader)
      ensures this.repository == repository && this.custody == custody && lastUnresolvedCount == 0
    {
      this.repository, this.custody, lastUnresolvedCount := repository, custody, 0;
    }

    /**
     One pass. The cache changes nothing about what is flagged, in which order and why, and custody is
     read at most once per order.
     */
    method Run(b: Books, transitions: seq<Transition>) returns (report: Report)
      modifies this, repository.Footprint(), custody
      ensures repository.Records() == Recorded(repository.Postgres?, old(repository.Records()), Flagged(b, transitions))
      ensures var open := Unresolved(repository.Records());
              report == Report(open == [], |transitions|, |transitions| - |Flagged(b, transitions)|, |open|, open)
      ensures lastUnresolvedCount == report.unresolved
      ensures old(custody.log) <= custody.log
      ensures ReadsOnce(custody.log[|old(custody.log)|..], transitions)
    {
      var mismatches := Check(b, transitions);
      repository.ReplaceMismatches(mismatches);
      var unresolved := repository.ListUnresolvedMismatches();
      report := Report(|unresolved| == 0, |transitions|, |transitions| - |mismatches|, |unresolved|, unresolved);
      lastUnresolvedCount := report.unresolved;
    }

    /** The loop over the transitions, with its cache. */
    method Check(b: Books, transitions: seq<Transition>) returns (mismatches: seq<Mismatch>)
      modifies custody
      ensures mismatches == Flagged(b, transitions)
      ensures old(custody.log) <= custody.log
      ensures ReadsOnce(custody.log[|old(custody.log)|..], transitions)
    {
      mismatches := [];
      var cache: map<string, Comparison> := map[];
      ghost var start := |custody.log|;
      for i := 0 to |transitions|
        invariant mismatches == Flagged(b, transitions[..i])
        invariant forall o :: o in cache ==> cache[o] == CustodyOf(b, o)
        invariant old(custody.log) <= custody.log && start == |old(custody.log)|
        invariant ReadsOnce(custody.log[start..], transitions[..i])
        invariant forall o :: o in custody.log[start..] <==> o in cache
      {
        var t := transitions[i];
        assert transitions[..i + 1][..i] == transitions[..i];
        ghost var before := custody.log[start..];
        ReadsOnceMore(before, transitions[..i], transitions[..i + 1]);
        var reason := CheckLedgerAndChain(b, t);
        if reason.None? {
          if t.orderId !in cache {
            ReadsOnceAppend(before, transitions[..i + 1], t.orderId);
            var pair := custody.Read(b, t.orderId);
            assert custody.log[start..] == before + [t.orderId];
            cache := cache[t.orderId := pair];
          }
          reason := CheckComparison(t, cache[t.orderId]);
        }
        if reason.Some? {
          mismatches := mismatches + [Mismatch(t.orderId, t.id, reason.value, false)];
        }
      }
      assert transitions[..|transitions|] == transitions;
    }
  }

  /** No order is read twice, and only orders of these transitions are read. */
  ghost predicate ReadsOnce(log: seq<string>, ts: seq<Transition>) {
    && (forall i, j :: 0 <= i < j < |log| ==> log[i] != log[j])
    && (forall o :: o in log ==> exists t :: t in ts && t.orderId == o)
  }

  lemma ReadsOnceMore(log: seq<string>, ts: seq<Transition>, us: seq<Transition>)
    requires ReadsOnce(log, ts) && ts <= us
    ensures ReadsOnce(log, us)
  {
    forall o | o in log ensures exists t :: t in us && t.orderId == o {
      var t :| t in ts && t.orderId == o;
      assert t in us;
    }
  }

  lemma ReadsOnceAppend(log: seq<string>, us: seq<Transition>, o: string)
    requires |us| > 0 && us[|us| - 1].orderId == o && o !in log
    requires ReadsOnce(log, us[..|us| - 1])
    ensures ReadsOnce(log + [o], us)
  {
    ReadsOnceMore(log, us[..|us| - 1], us);
    assert us[|us| - 1] in us;
  }
}

/** What the pass and its report mean. */
module ReconciliationTheorems {
  import opened Wrappers
  import opened Reconciliation

  /** Attribution is compared only where it is kept. */
  predicate Attributed(kept: Option<string>, expected: string) { kept.None? || kept == Some(expected) }

  /** The network knows the recorded transaction as a success of this order and this transition. */
  predicate ChainConfirms(b: Books, t: Transition) {
    && t.hash.Some? && t.hash.value != "" && t.hash.value in b.transactions
    && var seen := b.transactions[t.hash.value];
       seen.status == SUCCESS && Attributed(seen.orderId, t.orderId) && Attributed(seen.kind, t.kind)
  }

  /** The funds in custody are the ones of the order: amount, currency and, once confirmed, the delivery mark. */
  predicate Funded(onChain: Snapshot, value: CustodyValue, order: Order) {
    && value.amount == Some(order.amount) && value.currency == Some(order.currency)
    && (order.status == CONFIRMED ==> onChain.deliveryConfirmed)
  }

  /** Whatever escrow contract the books name for the order and the gateway can see agrees with the books. */
  ghost predicate CustodyAgrees(b: Books, orderId: string) {
    forall id :: orderId in b.escrows && b.escrows[orderId].contractId == Some(id) && id != "" && id in b.snapshots ==>
      var onChain := b.snapshots[id];
      && Attributed(onChain.orderId, orderId)
      && onChain.state == b.escrows[orderId].state
      && (onChain.value.Some? && orderId in b.orders ==> Funded(onChain, onChain.value.value, b.orders[orderId]))
  }

  /**
   A transition passes exactly when its ledger entries balance, the chain confirms it if it touches
   the chain, and the custody of its order agrees with the books.
   */
  lemma CleanExactlyWhen(b: Books, t: Transition)
    ensures ReasonFor(b, t).None? <==>
            b.isBalanced(t.entries) && (b.touchesChain(t.kind) ==> ChainConfirms(b, t)) && CustodyAgrees(b, t.orderId)
  {
    if t.orderId in b.escrows && b.escrows[t.orderId].contractId.Some? {
      var id := b.escrows[t.orderId].contractId.value;
      assert CustodyAgrees(b, t.orderId) && id != "" && id in b.snapshots ==>
        Attributed(b.snapshots[id].orderId, t.orderId);
    }
  }

  /** What the books know about a transition that touches the chain: nothing, or what was observed. */
  predicate SeenAs(b: Books, t: Transition, seen: Observation) {
    t.hash.Some? && t.hash.value != "" && t.hash.value in b.transactions && b.transactions[t.hash.value] == seen
  }

  /** The custody the gateway sees for the order of a transition, next to the state the books have for it. */
  predicate HeldAs(b: Books, t: Transition, onChain: Snapshot, recorded: string) {
    && t.orderId in b.escrows && b.escrows[t.orderId].state == recorded
    && b.escrows[t.orderId].contractId.Some?
    && var id := b.escrows[t.orderId].contractId.value;
       id != "" && id in b.snapshots && b.snapshots[id] == onChain
  }

  /** The ledger and the chain have nothing against a transition. */
  predicate LedgerPasses(b: Books, t: Transition) {
    b.isBalanced(t.entries) && (b.touchesChain(t.kind) ==> ChainConfirms(b, t))
  }

  /** Custody of the right order in the recorded state, whose value and order are both known. */
  predicate Valued(b: Books, t: Transition, onChain: Snapshot, held: CustodyValue, order: Order) {
    && LedgerPasses(b, t) && Attributed(onChain.orderId, t.orderId)
    && HeldAs(b, t, onChain, onChain.state) && onChain.value == Some(held)
    && t.orderId in b.orders && b.orders[t.orderId] == order
  }

  /** The situation each reason stands for. */
  ghost predicate Because(b: Books, t: Transition, reason: Reason) {
    match reason
    case NotBalanced => !b.isBalanced(t.entries)
    case TransactionNotFound =>
      b.isBalanced(t.entries) && b.touchesChain(t.kind) && !exists seen :: SeenAs(b, t, seen)
    case TransactionStatus(status) =>
      && b.isBalanced(t.entries) && b.touchesChain(t.kind) && status != "success"
      && exists seen :: SeenAs(b, t, seen) && seen.status == status
    case MetadataMismatch =>
      && b.isBalanced(t.entries) && b.touchesChain(t.kind)
      && exists seen :: SeenAs(b, t, seen) && seen.status == "success"
                        && !(Attributed(seen.orderId, t.orderId) && Attributed(seen.kind, t.kind))
    case WrongOrder(owner) =>
      && LedgerPasses(b, t) && owner != t.orderId
      && exists onChain, recorded :: HeldAs(b, t, onChain, recorded) && onChain.orderId == Some(owner)
    case StateMismatch(seen, recorded) =>
      && LedgerPasses(b, t) && seen != recorded
      && exists onChain :: HeldAs(b, t, onChain, recorded) && Attributed(onChain.orderId, t.orderId)
                           && onChain.state == seen
    case InexpressibleToken(token) =>
      exists onChain, held, order :: Valued(b, t, onChain, held, order)
        && held.token == token && (held.amount.None? || held.currency.None?)
    case ValueMismatch(held, order) =>
      && held.amount.Some? && held.currency.Some?
      && (held.amount.value != order.amount || held.currency.value != order.currency)
      && exists onChain :: Valued(b, t, onChain, held, order)
    case ConfirmationMissing =>
      exists onChain, held, order :: Valued(b, t, onChain, held, order)
        && held.amount == Some(order.amount) && held.currency == Some(order.currency)
        && order.status == "confirmed" && !onChain.deliveryConfirmed
  }

  predicate OfLedger(reason: Reason) {
    reason.NotBalanced? || reason.TransactionNotFound? || reason.TransactionStatus? || reason.MetadataMismatch?
  }

  lemma LedgerReason(b: Books, t: Transition, reason: Reason)
    ensures CheckLedgerAndChain(b, t) == Some(reason) <==> OfLedger(reason) && Because(b, t, reason)
    ensures CheckLedgerAndChain(b, t).None? <==> LedgerPasses(b, t)
  {
    if t.hash.Some? && t.hash.value != "" && t.hash.value in b.transactions {
      assert SeenAs(b, t, b.transactions[t.hash.value]);
    }
  }

  lemma CustodyReason(b: Books, t: Transition, reason: Reason)
    requires LedgerPasses(b, t)
    ensures CheckComparison(t, CustodyOf(b, t.orderId)) == Some(reason) <==> !OfLedger(reason) && Because(b, t, reason)
  {
    if t.orderId in b.escrows && b.escrows[t.orderId].contractId.Some? {
      var id, recorded := b.escrows[t.orderId].contractId.value, b.escrows[t.orderId].state;
      if id != "" && id in b.snapshots {
        SeenCustodyReason(b, t, b.snapshots[id], recorded, reason);
      }
    }
  }

  lemma SeenCustodyReason(b: Books, t: Transition, onChain: Snapshot, recorded: string, reason: Reason)
    requires LedgerPasses(b, t) && HeldAs(b, t, onChain, recorded)
    ensures CheckComparison(t, CustodyOf(b, t.orderId)) == Some(reason) <==> !OfLedger(reason) && Because(b, t, reason)
  {
    if onChain.value.Some? && t.orderId in b.orders && Attributed(onChain.orderId, t.orderId)
       && onChain.state == recorded {
      assert Valued(b, t, onChain, onChain.value.value, b.orders[t.orderId]);
    }
  }

  /** A transition is given exactly the reason whose situation it is in. */
  lemma ReasonExactlyWhen(b: Books, t: Transition, reason: Reason)
    ensures ReasonFor(b, t) == Some(reason) <==> Because(b, t, reason)
  {
    LedgerReason(b, t, reason);
    if LedgerPasses(b, t) {
      CustodyReason(b, t, reason);
    }
  }

  /** A transition is flagged, with its reason, exactly when the books give one. */
  lemma {:induction false} FlaggedExactly(b: Books, ts: seq<Transition>, id: string)
    ensures id in Ids(Flagged(b, ts)) <==> exists t :: t in ts && t.id == id && ReasonFor(b, t).Some?
    decreases |ts|
  {
    if ts != [] {
      var n := |ts| - 1;
      FlaggedExactly(b, ts[..n], id);
      var last := if ReasonFor(b, ts[n]).Some?
        then [Mismatch(ts[n].orderId, ts[n].id, ReasonFor(b, ts[n]).value, false)] else [];
      IdsAppend(Flagged(b, ts[..n]), last, id);
      assert last != [] ==> last[0].transitionId == ts[n].id;
      assert ts == ts[..n] + [ts[n]];
    }
  }

  /** The flagged records are those of the transitions in such a situation, under their own order and id. */
  lemma {:induction false} FlaggedRecords(b: Books, ts: seq<Transition>, m: Mismatch)
    ensures m in Flagged(b, ts) <==>
            && !m.resolved
            && exists t :: t in ts && t.orderId == m.orderId && t.id == m.transitionId && Because(b, t, m.reason)
    decreases |ts|
  {
    if ts != [] {
      var n := |ts| - 1;
      FlaggedRecords(b, ts[..n], m);
      ReasonExactlyWhen(b, ts[n], m.reason);
      assert ts == ts[..n] + [ts[n]];
    }
  }

  /** And they come in the order of the transitions. */
  lemma {:induction false} FlaggedInOrder(b: Books, ts: seq<Transition>, us: seq<Transition>)
    ensures Flagged(b, ts + us) == Flagged(b, ts) + Flagged(b, us)
    decreases |us|
  {
    if us == [] {
      assert ts + us == ts;
    } else {
      var n := |us| - 1;
      FlaggedInOrder(b, ts, us[..n]);
      assert (ts + us)[..|ts + us| - 1] == ts + us[..n];
    }
  }

  /** A run loses no record and reopens none: it only marks open ones it did not find again as resolved. */
  lemma HistoryIsKept(persistent: bool, stored: seq<Mismatch>, found: seq<Mismatch>, i: nat)
    requires i < |stored|
    ensures var after := Recorded(persistent, stored, found);
            i < |after|
            && after[i] == if stored[i].transitionId in Ids(found) then stored[i] else stored[i].(resolved := true)
  {
    if persistent { InsertsAppend(Settle(stored, Ids(found)), found); }
  }

  lemma {:induction false} InsertsAppend(rows: seq<Mismatch>, found: seq<Mismatch>)
    ensures rows <= InsertedAll(rows, found)
    decreases |found|
  {
    if found != [] {
      InsertsAppend(rows, found[..|found| - 1]);
    }
  }

  lemma {:induction false} UnresolvedRecords(stored: seq<Mismatch>, m: Mismatch)
    ensures m in Unresolved(stored) <==> m in stored && !m.resolved
    decreases |stored|
  {
    if stored != [] {
      var n := |stored| - 1;
      UnresolvedRecords(stored[..n], m);
      assert stored == stored[..n] + [stored[n]];
    }
  }

  // ---------- The repository in memory ----------

  /** The repository holds at most one record per transition. */
  ghost predicate OneRecordEach(stored: seq<Mismatch>) {
    forall i, j :: 0 <= i < j < |stored| ==> stored[i].transitionId != stored[j].transitionId
  }

  ghost function ResolvedIds(stored: seq<Mismatch>): set<string> {
    set i | 0 <= i < |stored| && stored[i].resolved :: stored[i].transitionId
  }

  lemma {:induction false} UnresolvedIds(stored: seq<Mismatch>, id: string)
    ensures id in Ids(Unresolved(stored)) <==>
            exists i :: 0 <= i < |stored| && stored[i].transitionId == id && !stored[i].resolved
    decreases |stored|
  {
    if stored != [] {
      var n := |stored| - 1;
      UnresolvedIds(stored[..n], id);
      var last := if !stored[n].resolved then [stored[n]] else [];
      IdsAppend(Unresolved(stored[..n]), last, id);
      assert last != [] ==> last[0].transitionId == stored[n].transitionId;
      if exists i :: 0 <= i < n && stored[..n][i].transitionId == id && !stored[..n][i].resolved {
        var i :| 0 <= i < n && stored[..n][i].transitionId == id && !stored[..n][i].resolved;
        assert stored[i].transitionId == id;
      }
      if i :| 0 <= i < |stored| && stored[i].transitionId == id && !stored[i].resolved {
        assert i < n ==> stored[..n][i].transitionId == id;
      }
    }
  }

  lemma {:induction false} FilterOutIds(ms: seq<Mismatch>, existing: set<string>, id: string)
    ensures id in Ids(FilterOut(ms, existing)) <==> id in Ids(ms) && id !in existing
    ensures (forall i :: 0 <= i < |ms| ==> !ms[i].resolved) ==>
              forall i :: 0 <= i < |FilterOut(ms, existing)| ==> !FilterOut(ms, existing)[i].resolved
    decreases |ms|
  {
    if ms != [] {
      var n := |ms| - 1;
      FilterOutIds(ms[..n], existing, id);
      var last := if ms[n].transitionId !in existing then [ms[n]] else [];
      IdsAppend(FilterOut(ms[..n], existing), last, id);
      IdsAppend(ms[..n], [ms[n]], id);
      assert ms == ms[..n] + [ms[n]];
      assert [ms[n]][0].transitionId == ms[n].transitionId;
    }
  }

  /**
   In memory: after a run a transition is reported as unresolved exactly when it was flagged and no
   earlier run had already resolved it. A resolved record is never opened again.
   */
  lemma ReportedExactly(stored: seq<Mismatch>, found: seq<Mismatch>, id: string)
    requires OneRecordEach(stored) && forall i :: 0 <= i < |found| ==> !found[i].resolved
    ensures id in Ids(Unresolved(Replaced(stored, found))) <==> id in Ids(found) && id !in ResolvedIds(stored)
  {
    var settled := Settle(stored, Ids(found));
    var added := FilterOut(found, Ids(settled));
    FilterOutIds(found, Ids(settled), id);
    UnresolvedIds(settled + added, id);
    SettledIds(stored, Ids(found), id);
    if id in Ids(added) {
      var i :| 0 <= i < |added| && added[i].transitionId == id;
      assert (settled + added)[|settled| + i] == added[i];
    }
    if i :| 0 <= i < |settled| && settled[i].transitionId == id && !settled[i].resolved {
      assert (settled + added)[i] == settled[i];
    }
    if i :| 0 <= i < |settled + added| && (settled + added)[i].transitionId == id && !(settled + added)[i].resolved {
      if i < |settled| {
        assert settled[i].transitionId == id && !settled[i].resolved;
      } else {
        assert added[i - |settled|].transitionId == id;
      }
    }
  }

  lemma {:induction false} FilterOutRecords(ms: seq<Mismatch>, existing: set<string>, m: Mismatch)
    ensures m in FilterOut(ms, existing) <==> m in ms && m.transitionId !in existing
    decreases |ms|
  {
    if ms != [] {
      var n := |ms| - 1;
      FilterOutRecords(ms[..n], existing, m);
      assert ms == ms[..n] + [ms[n]];
    }
  }

  lemma SettledRecords(stored: seq<Mismatch>, active: set<string>, m: Mismatch)
    requires !m.resolved
    ensures m in Settle(stored, active) <==> m in stored && m.transitionId in active
  {
    var settled := Settle(stored, active);
    if m in settled {
      var i :| 0 <= i < |settled| && settled[i] == m;
      assert stored[i] == m;
    }
    if m in stored && m.transitionId in active {
      var i :| 0 <= i < |stored| && stored[i] == m;
      assert settled[i] == m;
    }
  }

  /**
   In memory the records reported are the open ones found again, as they were first recorded, and the ones
   found for transitions that have no record yet.
   */
  lemma ReportedRecords(stored: seq<Mismatch>, found: seq<Mismatch>, m: Mismatch)
    requires OneRecordEach(stored) && forall i :: 0 <= i < |found| ==> !found[i].resolved
    ensures m in Unresolved(Replaced(stored, found)) <==>
            || (m in stored && !m.resolved && m.transitionId in Ids(found))
            || (m in found && m.transitionId !in Ids(stored))
  {
    var settled := Settle(stored, Ids(found));
    UnresolvedRecords(Replaced(stored, found), m);
    FilterOutRecords(found, Ids(settled), m);
    SettledIds(stored, Ids(found), m.transitionId);
    if !m.resolved { SettledRecords(stored, Ids(found), m); }
  }

  lemma SettledIds(stored: seq<Mismatch>, active: set<string>, id: string)
    requires OneRecordEach(stored)
    ensures id in Ids(Settle(stored, active)) <==> id in Ids(stored)
    ensures (exists i :: 0 <= i < |stored| && Settle(stored, active)[i].transitionId == id
               && !Settle(stored, active)[i].resolved)
            <==> id in Ids(stored) && id in active && id !in ResolvedIds(stored)
  {
    var settled := Settle(stored, active);
    if id in Ids(stored) {
      var i :| 0 <= i < |stored| && stored[i].transitionId == id;
      assert settled[i].transitionId == id;
      assert forall j :: 0 <= j < |stored| && stored[j].transitionId == id ==> j == i;
    }
    if id in Ids(settled) {
      var i :| 0 <= i < |settled| && settled[i].transitionId == id;
      assert stored[i].transitionId == id;
    }
  }

  /**
   In memory: the report says "matched" exactly when every flagged transition had been flagged and
   resolved before. With no such history it is faithful: matched means nothing was flagged.
   */
  lemma MatchedExactlyWhen(stored: seq<Mismatch>, b: Books, ts: seq<Transition>)
    requires OneRecordEach(stored)
    ensures Unresolved(Replaced(stored, Flagged(b, ts))) == [] <==>
            forall t :: t in ts && ReasonFor(b, t).Some? ==> t.id in ResolvedIds(stored)
  {
    var open := Unresolved(Replaced(stored, Flagged(b, ts)));
    FlaggedIsOpen(b, ts);
    if open == [] {
      forall t | t in ts && ReasonFor(b, t).Some? ensures t.id in ResolvedIds(stored) {
        FlaggedExactly(b, ts, t.id);
        ReportedExactly(stored, Flagged(b, ts), t.id);
      }
    } else {
      var id := open[0].transitionId;
      assert id in Ids(open);
      ReportedExactly(stored, Flagged(b, ts), id);
      FlaggedExactly(b, ts, id);
    }
  }

  lemma {:induction false} FlaggedIsOpen(b: Books, ts: seq<Transition>)
    ensures forall i :: 0 <= i < |Flagged(b, ts)| ==> !Flagged(b, ts)[i].resolved
    decreases |ts|
  {
    if ts != [] {
      FlaggedIsOpen(b, ts[..|ts| - 1]);
    }
  }

  /**
   In memory: a mismatch that went away and came back is flagged by the third run and not reported,
   whatever was stored before; the first run reported it unless it had been resolved already.
   */
  lemma ReturningMismatchIsHidden(stored: seq<Mismatch>, m: Mismatch)
    requires OneRecordEach(stored) && !m.resolved
    ensures var first := Replaced(stored, [m]);
            var second := Replaced(first, []);
            && (m.transitionId in Ids(Unresolved(first)) <==> m.transitionId !in ResolvedIds(stored))
            && Unresolved(second) == [] && Unresolved(Replaced(second, [m])) == []
  {
    var first := Replaced(stored, [m]);
    var second := Replaced(first, []);
    var id := m.transitionId;
    assert [m][0].transitionId == id;
    ReportedExactly(stored, [m], id);
    ReplacedKeepsOne(stored, [m]);
    ReplacedKeepsOne(first, []);
    NothingFoundNothingOpen(first);
    Remembered(stored, [m], id);
    Remembered(first, [], id);
    ResolvedWhenNotOpen(second, id);
    OnlyFoundIsOpen(second, m);
  }

  lemma NothingFoundNothingOpen(stored: seq<Mismatch>)
    requires OneRecordEach(stored)
    ensures Unresolved(Replaced(stored, [])) == []
  {
    var open := Unresolved(Replaced(stored, []));
    if open != [] {
      assert open[0].transitionId in Ids(open);
      ReportedExactly(stored, [], open[0].transitionId);
    }
  }

  /** A run forgets no record, and has one for everything it found. */
  lemma Remembered(stored: seq<Mismatch>, found: seq<Mismatch>, id: string)
    requires OneRecordEach(stored)
    ensures id in Ids(stored) || id in Ids(found) ==> id in Ids(Replaced(stored, found))
  {
    var settled := Settle(stored, Ids(found));
    SettledIds(stored, Ids(found), id);
    FilterOutIds(found, Ids(settled), id);
    IdsAppend(settled, FilterOut(found, Ids(settled)), id);
  }

  lemma ResolvedWhenNotOpen(stored: seq<Mismatch>, id: string)
    requires id in Ids(stored) && Unresolved(stored) == []
    ensures id in ResolvedIds(stored)
  {
    UnresolvedIds(stored, id);
    var i :| 0 <= i < |stored| && stored[i].transitionId == id;
    assert stored[i].resolved;
  }

  lemma OnlyFoundIsOpen(stored: seq<Mismatch>, m: Mismatch)
    requires OneRecordEach(stored) && !m.resolved && m.transitionId in ResolvedIds(stored)
    ensures Unresolved(Replaced(stored, [m])) == []
  {
    var open := Unresolved(Replaced(stored, [m]));
    if open != [] {
      var id := open[0].transitionId;
      assert id in Ids(open);
      ReportedExactly(stored, [m], id);
    }
  }

  /** In memory the premise is kept by every run over transitions with distinct ids. */
  lemma OneRecordEachIsKept(stored: seq<Mismatch>, b: Books, ts: seq<Transition>)
    requires OneRecordEach(stored)
    requires forall i, j :: 0 <= i < j < |ts| ==> ts[i].id != ts[j].id
    ensures OneRecordEach(Replaced(stored, Flagged(b, ts)))
  {
    FlaggedOnce(b, ts);
    ReplacedKeepsOne(stored, Flagged(b, ts));
  }

  lemma ReplacedKeepsOne(stored: seq<Mismatch>, found: seq<Mismatch>)
    requires OneRecordEach(stored) && OneRecordEach(found)
    ensures OneRecordEach(Replaced(stored, found))
  {
    var settled := Settle(stored, Ids(found));
    FilterOutOnce(found, Ids(settled));
    var added := FilterOut(found, Ids(settled));
    var all := settled + added;
    forall i, j | 0 <= i < j < |all| ensures all[i].transitionId != all[j].transitionId {
      if i < |settled| <= j {
        assert settled[i].transitionId in Ids(settled);
        assert added[j - |settled|].transitionId in Ids(added);
        FilterOutIds(found, Ids(settled), added[j - |settled|].transitionId);
      }
    }
  }

  lemma {:induction false} FlaggedOnce(b: Books, ts: seq<Transition>)
    requires forall i, j :: 0 <= i < j < |ts| ==> ts[i].id != ts[j].id
    ensures OneRecordEach(Flagged(b, ts))
    decreases |ts|
  {
    if ts != [] {
      var n := |ts| - 1;
      FlaggedOnce(b, ts[..n]);
      FlaggedExactly(b, ts[..n], ts[n].id);
      OneMore(Flagged(b, ts[..n]), Mismatch(ts[n].orderId, ts[n].id, NotBalanced, false));
    }
  }

  lemma {:induction false} FilterOutOnce(ms: seq<Mismatch>, existing: set<string>)
    requires OneRecordEach(ms)
    ensures OneRecordEach(FilterOut(ms, existing))
    decreases |ms|
  {
    if ms != [] {
      var n := |ms| - 1;
      FilterOutOnce(ms[..n], existing);
      FilterOutIds(ms[..n], existing, ms[n].transitionId);
      assert ms[n].transitionId !in Ids(ms[..n]);
      OneMore(FilterOut(ms[..n], existing), ms[n]);
    }
  }

  lemma OneMore(ms: seq<Mismatch>, m: Mismatch)
    requires OneRecordEach(ms)
    ensures m.transitionId !in Ids(ms) ==>
              forall i :: 0 <= i < |ms| ==> ms[i].transitionId != m.transitionId
  {
    if m.transitionId !in Ids(ms) {
      forall i | 0 <= i < |ms| ensures ms[i].transitionId != m.transitionId {
        assert ms[i].transitionId in Ids(ms);
      }
    }
  }

  // ---------- The repository in Postgres ----------

  /** The partial unique index: at most one open row per transition, and any number of resolved ones. */
  ghost predicate OneOpenEach(rows: seq<Mismatch>) {
    forall i, j :: 0 <= i < j < |rows| && !rows[i].resolved && !rows[j].resolved ==>
      rows[i].transitionId != rows[j].transitionId
  }

  lemma InsertKeepsIndex(rows: seq<Mismatch>, m: Mismatch)
    requires OneOpenEach(rows)
    ensures OneOpenEach(Inserted(rows, m))
  {
    UnresolvedIds(rows, m.transitionId);
  }

  lemma {:induction false} InsertsKeepIndex(rows: seq<Mismatch>, found: seq<Mismatch>)
    requires OneOpenEach(rows)
    ensures OneOpenEach(InsertedAll(rows, found))
    decreases |found|
  {
    if found != [] {
      InsertsKeepIndex(rows, found[..|found| - 1]);
      InsertKeepsIndex(InsertedAll(rows, found[..|found| - 1]), found[|found| - 1]);
    }
  }

  /** In Postgres every run, whatever it found, keeps one open row per transition. */
  lemma OneOpenEachIsKept(stored: seq<Mismatch>, found: seq<Mismatch>)
    requires OneOpenEach(stored)
    ensures OneOpenEach(ReplacedRows(stored, found))
  {
    InsertsKeepIndex(Settle(stored, Ids(found)), found);
  }

  lemma InsertOpens(rows: seq<Mismatch>, m: Mismatch, id: string)
    ensures id in Ids(Unresolved(Inserted(rows, m))) <==> id in Ids(Unresolved(rows)) || id == m.transitionId
  {
    if m.transitionId !in Ids(Unresolved(rows)) {
      var added := m.(resolved := false);
      assert (rows + [added])[..|rows|] == rows;
      assert Unresolved(rows + [added]) == Unresolved(rows) + [added];
      IdsAppend(Unresolved(rows), [added], id);
      assert [added][0].transitionId == m.transitionId;
    }
  }

  lemma {:induction false} InsertsOpen(rows: seq<Mismatch>, found: seq<Mismatch>, id: string)
    ensures id in Ids(Unresolved(InsertedAll(rows, found))) <==> id in Ids(Unresolved(rows)) || id in Ids(found)
    decreases |found|
  {
    if found != [] {
      var front, last := found[..|found| - 1], found[|found| - 1];
      assert id in Ids(found) <==> id in Ids(front) || id == last.transitionId by {
        IdsAppend(front, [last], id);
        assert found == front + [last] && [last][0].transitionId == last.transitionId;
      }
      InsertsOpen(rows, front, id);
      InsertOpens(InsertedAll(rows, front), last, id);
    }
  }

  /** In Postgres: after a run a transition is reported as unresolved exactly when it was flagged. */
  lemma RowsReportExactly(stored: seq<Mismatch>, found: seq<Mismatch>, id: string)
    ensures id in Ids(Unresolved(ReplacedRows(stored, found))) <==> id in Ids(found)
  {
    var settled := Settle(stored, Ids(found));
    InsertsOpen(settled, found, id);
    UnresolvedIds(settled, id);
  }

  lemma InsertedRecords(rows: seq<Mismatch>, last: Mismatch, m: Mismatch)
    requires !last.resolved
    ensures m in Unresolved(Inserted(rows, last)) <==>
            m in Unresolved(rows) || (m == last && m.transitionId !in Ids(Unresolved(rows)))
  {
    if last.transitionId !in Ids(Unresolved(rows)) {
      assert last.(resolved := false) == last;
      assert (rows + [last])[..|rows|] == rows;
      assert Unresolved(rows + [last]) == Unresolved(rows) + [last];
    }
  }

  lemma {:induction false} AllInsertedRecords(rows: seq<Mismatch>, found: seq<Mismatch>, m: Mismatch)
    requires OneRecordEach(found) && forall i :: 0 <= i < |found| ==> !found[i].resolved
    ensures m in Unresolved(InsertedAll(rows, found)) <==>
            m in Unresolved(rows) || (m in found && m.transitionId !in Ids(Unresolved(rows)))
    decreases |found|
  {
    if found != [] {
      var n := |found| - 1;
      var front, last := found[..n], found[n];
      LastIsNew(found);
      AllInsertedRecords(rows, front, m);
      RecordsAfterOne(rows, front, last, InsertedAll(rows, front), m);
      assert found == front + [last];
    }
  }

  lemma RecordsAfterOne(rows: seq<Mismatch>, front: seq<Mismatch>, last: Mismatch, before: seq<Mismatch>, m: Mismatch)
    requires before == InsertedAll(rows, front) && !last.resolved && last.transitionId !in Ids(front)
    requires m in Unresolved(before) <==>
               m in Unresolved(rows) || (m in front && m.transitionId !in Ids(Unresolved(rows)))
    ensures m in Unresolved(Inserted(before, last)) <==>
            m in Unresolved(rows) || ((m in front || m == last) && m.transitionId !in Ids(Unresolved(rows)))
  {
    InsertedRecords(before, last, m);
    InsertsOpen(rows, front, last.transitionId);
  }

  lemma LastIsNew(found: seq<Mismatch>)
    requires found != [] && OneRecordEach(found)
    ensures OneRecordEach(found[..|found| - 1])
    ensures found[|found| - 1].transitionId !in Ids(found[..|found| - 1])
  {}

  /**
   In Postgres the records reported are the open ones found again, as they were first recorded, and the
   ones found for transitions that have no open row.
   */
  lemma ReportedRows(stored: seq<Mismatch>, found: seq<Mismatch>, m: Mismatch)
    requires OneRecordEach(found) && forall i :: 0 <= i < |found| ==> !found[i].resolved
    ensures m in Unresolved(ReplacedRows(stored, found)) <==>
            || (m in stored && !m.resolved && m.transitionId in Ids(found))
            || (m in found && m.transitionId !in Ids(Unresolved(stored)))
  {
    var settled := Settle(stored, Ids(found));
    AllInsertedRecords(settled, found, m);
    UnresolvedRecords(settled, m);
    if !m.resolved { SettledRecords(stored, Ids(found), m); }
    if m in found {
      assert m.transitionId in Ids(found) by {
        var i :| 0 <= i < |found| && found[i] == m;
        assert found[i].transitionId == m.transitionId;
      }
      OpenBefore(stored, Ids(found), m.transitionId);
    }
  }

  /** An open row that is found again stays open, and no other opens. */
  lemma OpenBefore(stored: seq<Mismatch>, active: set<string>, id: string)
    requires id in active
    ensures id in Ids(Unresolved(Settle(stored, active))) <==> id in Ids(Unresolved(stored))
  {
    var settled := Settle(stored, active);
    UnresolvedIds(stored, id);
    UnresolvedIds(settled, id);
    if i :| 0 <= i < |stored| && stored[i].transitionId == id && !stored[i].resolved {
      assert settled[i].transitionId == id && !settled[i].resolved;
    }
    if i :| 0 <= i < |settled| && settled[i].transitionId == id && !settled[i].resolved {
      assert stored[i].transitionId == id && !stored[i].resolved;
    }
  }

  /** In Postgres: the report says "matched" exactly when the pass found nothing wrong. */
  lemma RowsMatchedExactlyWhen(stored: seq<Mismatch>, b: Books, ts: seq<Transition>)
    ensures Unresolved(ReplacedRows(stored, Flagged(b, ts))) == [] <==> forall t :: t in ts ==> ReasonFor(b, t).None?
  {
    var open := Unresolved(ReplacedRows(stored, Flagged(b, ts)));
    if open == [] {
      forall t | t in ts ensures ReasonFor(b, t).None? {
        RowsReportExactly(stored, Flagged(b, ts), t.id);
        FlaggedExactly(b, ts, t.id);
      }
    } else {
      var id := open[0].transitionId;
      assert id in Ids(open);
      RowsReportExactly(stored, Flagged(b, ts), id);
      FlaggedExactly(b, ts, id);
    }
  }

  /** In Postgres: a mismatch that went away and came back is reported, whatever was stored before. */
  lemma ReturningMismatchIsReported(stored: seq<Mismatch>, m: Mismatch)
    ensures var first := ReplacedRows(stored, [m]);
            var second := ReplacedRows(first, []);
            Unresolved(second) == [] && m.transitionId in Ids(Unresolved(ReplacedRows(second, [m])))
  {
    var second := ReplacedRows(ReplacedRows(stored, [m]), []);
    assert m.transitionId in Ids([m]) by { assert [m][0].transitionId == m.transitionId; }
    RowsReportExactly(second, [m], m.transitionId);
    if Unresolved(second) != [] {
      var id := Unresolved(second)[0].transitionId;
      assert id in Ids(Unresolved(second));
      RowsReportExactly(ReplacedRows(stored, [m]), [], id);
    }
  }

  /**
   The two implementations of one interface, started from the same records, report the same
   transitions exactly when the pass found nothing that had been resolved before.
   */
  lemma RepositoriesAgreeExactlyWhen(stored: seq<Mismatch>, found: seq<Mismatch>)
    requires OneRecordEach(stored) && forall i :: 0 <= i < |found| ==> !found[i].resolved
    ensures Ids(Unresolved(Replaced(stored, found))) == Ids(Unresolved(ReplacedRows(stored, found)))
            <==> Ids(found) !! ResolvedIds(stored)
  {
    var memory, rows := Ids(Unresolved(Replaced(stored, found))), Ids(Unresolved(ReplacedRows(stored, found)));
    forall id ensures id in memory <==> id in rows && id !in ResolvedIds(stored) {
      ReportedExactly(stored, found, id);
      RowsReportExactly(stored, found, id);
    }
    forall id ensures id in rows <==> id in Ids(found) {
      RowsReportExactly(stored, found, id);
    }
    if Ids(found) !! ResolvedIds(stored) {
      assert memory == rows;
    } else {
      var id :| id in Ids(found) && id in ResolvedIds(stored);
      assert id in rows && id !in memory;
    }
  }
}
