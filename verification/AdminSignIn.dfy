/**
 Signing in to the admin console: the attempt throttle (admin/src/lib/session.ts), the single-use
 wallet challenges (admin/src/lib/wallet.ts) and the two handlers that drive them (admin/src/app.ts).

 A login is two steps: the lock check, and what follows the awaited password check, so any number of
 other requests may be handled in between. `checking` is the set of logins waiting in that way, each
 with the address its handler holds; it and `used`, the ids handed out, are not stored by the program.
 Password checks and wallet signatures are uninterpreted, and random challenge ids are fresh.
 */
module AdminSignIn {
  import opened Wrappers

  /** Epoch milliseconds. */
  type Time = nat

  const CHALLENGE_TTL_MS: nat := 300000

  /** `proves(nonce, xdr)`: the envelope is the challenge for `nonce`, signed by the configured wallet. */
  datatype Config = Config(maxAttempts: nat, lockoutMs: nat, skipWallet: bool, proves: (string, string) -> bool)

  /** What the configuration schema admits. */
  ghost predicate ValidConfig(c: Config) {
    1 <= c.maxAttempts <= 100 && 60000 <= c.lockoutMs
  }

  datatype Attempts = Attempts(failures: nat, lockedUntil: Time)

  datatype Challenge = Challenge(nonce: string, expiresAt: Time)

  type Ticket = nat

  datatype App = App(
    now: Time,
    attempts: map<string, Attempts>,
    outstanding: map<string, Challenge>,
    used: set<string>,
    checking: map<Ticket, string>)

  const START: App := App(0, map[], map[], {}, map[])

  /**
   `key` is the client address. `Login` is a POST /login up to the await, `Checked` what follows it. A
   verification with fields missing is not `wellFormed`.
   */
  datatype Event =
    | Login(ticket: Ticket, key: string, now: Time)
    | Checked(ticket: Ticket, now: Time, passwordOk: bool, freshId: string, freshNonce: string)
    | Verify(key: string, now: Time, wellFormed: bool, challengeId: string, xdr: string)

  /** `Checking` is no answer yet. */
  datatype Response =
    | TooManyAttempts
    | Checking
    | WrongPassword
    | ChallengeIssued(id: string)
    | MalformedProof
    | ProofRefused
    | SignedIn

  // ---------- What one request means ----------

  function AttemptsOf(attempts: map<string, Attempts>, key: string): Attempts {
    if key in attempts then attempts[key] else Attempts(0, 0)
  }

  predicate LockedOut(attempts: map<string, Attempts>, key: string, now: Time) {
    AttemptsOf(attempts, key).lockedUntil > now
  }

  function AfterFailure(c: Config, a: Attempts, now: Time): Attempts {
    if a.failures + 1 >= c.maxAttempts then Attempts(0, now + c.lockoutMs)
    else a.(failures := a.failures + 1)
  }

  function Failed(c: Config, attempts: map<string, Attempts>, key: string, now: Time): map<string, Attempts> {
    attempts[key := AfterFailure(c, AttemptsOf(attempts, key), now)]
  }

  /** `sweep`: what is left once expired challenges are dropped. */
  function Swept(outstanding: map<string, Challenge>, now: Time): map<string, Challenge> {
    map id | id in outstanding && outstanding[id].expiresAt > now :: outstanding[id]
  }

  /** The address an event belongs to. */
  function KeyOf(s: App, e: Event): string {
    match e
    case Login(_, key, _) => key
    case Checked(ticket, _, _, _, _) => if ticket in s.checking then s.checking[ticket] else ""
    case Verify(key, _, _, _, _) => key
  }

  predicate Enabled(s: App, e: Event) {
    && s.now <= e.now
    && (e.Login? ==> e.ticket !in s.checking)
    && (e.Checked? ==> e.ticket in s.checking && e.freshId !in s.used)
  }

  function Apply(c: Config, s: App, e: Event): (App, Response) {
    var key, s := KeyOf(s, e), s.(now := e.now);
    match e
    case Login(ticket, _, now) =>
      if LockedOut(s.attempts, key, now) then (s, TooManyAttempts)
      else (s.(checking := s.checking[ticket := key]), Checking)
    case Checked(ticket, now, passwordOk, id, nonce) =>
      AfterCheck(c, s.(checking := s.checking - {ticket}), key, now, passwordOk, id, nonce)
    case Verify(_, now, wellFormed, id, xdr) =>
      if LockedOut(s.attempts, key, now) then (s, TooManyAttempts)
      else if !wellFormed then (s.(attempts := Failed(c, s.attempts, key, now)), MalformedProof)
      else
        var live := Swept(s.outstanding, now);
        var spent := s.(outstanding := live - {id});
        if id in live && c.proves(live[id].nonce, xdr) then (spent.(attempts := s.attempts - {key}), SignedIn)
        else (spent.(attempts := Failed(c, s.attempts, key, now)), ProofRefused)
  }

  /** The rest of a login; the lock is not looked at again. */
  function AfterCheck(c: Config, s: App, key: string, now: Time, passwordOk: bool, id: string, nonce: string)
    : (App, Response)
  {
    if !passwordOk then (s.(attempts := Failed(c, s.attempts, key, now)), WrongPassword)
    else if c.skipWallet then (s.(attempts := s.attempts - {key}), SignedIn)
    else
      (s.(outstanding := Swept(s.outstanding, now)[id := Challenge(nonce, now + CHALLENGE_TTL_MS)],
          used := s.used + {id}), ChallengeIssued(id))
  }

  // ---------- The program ----------

  class AttemptThrottle {
    const config: Config
    var attempts: map<string, Attempts>

    constructor (config: Config)
      ensures this.config == config && attempts == map[]
    {
      this.config, attempts := config, map[];
    }

    /** Seconds the key stays locked out, zero when it is not. */
    method IsLockedOut(key: string, now: Time) returns (seconds: nat)
      ensures seconds > 0 <==> LockedOut(attempts, key, now)
      ensures seconds > 0 ==> now + 1000 * (seconds - 1) < attempts[key].lockedUntil <= now + 1000 * seconds
    {
      if key !in attempts { return 0; }
      var remaining := attempts[key].lockedUntil - now;
      seconds := if remaining > 0 then (remaining + 999) / 1000 else 0;
    }

    method RecordFailure(key: string, now: Time)
      modifies this
      ensures attempts == Failed(config, old(attempts), key, now)
    {
      var record := if key in attempts then attempts[key] else Attempts(0, 0);
      record := record.(failures := record.failures + 1);
      if record.failures >= config.maxAttempts {
        record := Attempts(0, now + config.lockoutMs);
      }
      attempts := attempts[key := record];
    }

    method ClearFailures(key: string)
      modifies this
      ensures attempts == old(attempts) - {key}
    {
      attempts := attempts - {key};
    }
  }

  class WalletChallenges {
    const config: Config
    var outstanding: map<string, Challenge>

    constructor (config: Config)
      ensures this.config == config && outstanding == map[]
    {
      this.config, outstanding := config, map[];
    }

    method Sweep(now: Time)
      modifies this
      ensures outstanding == Swept(old(outstanding), now)
    {
      var rest := outstanding.Keys;
      while rest != {}
        invariant rest <= outstanding.Keys <= old(outstanding).Keys
        invariant forall id :: id in outstanding ==> outstanding[id] == old(outstanding)[id]
        invariant forall id :: id in old(outstanding) && id !in rest ==>
                    (id in outstanding <==> old(outstanding)[id].expiresAt > now)
        decreases |rest|
      {
        var id :| id in rest;
        rest := rest - {id};
        if outstanding[id].expiresAt <= now {
          outstanding := outstanding - {id};
        }
      }
    }

    method IssueChallenge(now: Time, id: string, nonce: string)
      modifies this
      ensures outstanding == Swept(old(outstanding), now)[id := Challenge(nonce, now + CHALLENGE_TTL_MS)]
    {
      Sweep(now);
      outstanding := outstanding[id := Challenge(nonce, now + CHALLENGE_TTL_MS)];
    }

    /** The challenge is consumed before anything is checked. */
    method VerifyWalletProof(now: Time, id: string, xdr: string) returns (ok: bool)
      modifies this
      ensures outstanding == Swept(old(outstanding), now) - {id}
      ensures ok <==> id in Swept(old(outstanding), now) && config.proves(old(outstanding)[id].nonce, xdr)
    {
      Sweep(now);
      var challenge := if id in outstanding then Some(outstanding[id]) else None;
      outstanding := outstanding - {id};
      if challenge.None? { return false; }
      ok := config.proves(challenge.value.nonce, xdr);
    }
  }

  class AdminApp {
    const config: Config
    const throttle: AttemptThrottle
    const wallet: WalletChallenges
    ghost var now: Time
    ghost var used: set<string>
    ghost var checking: map<Ticket, string>

    ghost predicate Valid()
      reads this
    {
      throttle.config == config && wallet.config == config
    }

    ghost function Contents(): App
      reads this, throttle, wallet
    {
      App(now, throttle.attempts, wallet.outstanding, used, checking)
    }

    constructor (config: Config)
      ensures Valid() && fresh(throttle) && fresh(wallet) && Contents() == START && this.config == config
    {
      this.config := config;
      throttle := new AttemptThrottle(config);
      wallet := new WalletChallenges(config);
      now, used, checking := 0, {}, map[];
    }

    /** POST /login up to the await. */
    method Login(ghost ticket: Ticket, key: string, now: Time) returns (r: Response)
      requires Valid() && Enabled(Contents(), Event.Login(ticket, key, now))
      modifies this
      ensures Valid()
      ensures (Contents(), r) == Apply(config, old(Contents()), Event.Login(ticket, key, now))
    {
      this.now := now;
      var lockedFor := throttle.IsLockedOut(key, now);
      if lockedFor > 0 { return TooManyAttempts; }
      checking := checking[ticket := key];
      r := Checking;
    }

    /** POST /login after the await, with the address the handler has held. */
    method Checked(ghost ticket: Ticket, key: string, now: Time, passwordOk: bool, freshId: string, freshNonce: string)
      returns (r: Response)
      requires Valid() && Enabled(Contents(), Event.Checked(ticket, now, passwordOk, freshId, freshNonce))
      requires checking[ticket] == key
      modifies this, throttle, wallet
      ensures Valid()
      ensures (Contents(), r)
              == Apply(config, old(Contents()), Event.Checked(ticket, now, passwordOk, freshId, freshNonce))
    {
      this.now := now;
      checking := checking - {ticket};
      if !passwordOk {
        throttle.RecordFailure(key, now);
        return WrongPassword;
      }
      if config.skipWallet {
        throttle.ClearFailures(key);
        return SignedIn;
      }
      wallet.IssueChallenge(now, freshId, freshNonce);
      used := used + {freshId};
      r := ChallengeIssued(freshId);
    }

    /** POST /login/verify */
    method Verify(key: string, now: Time, wellFormed: bool, challengeId: string, xdr: string) returns (r: Response)
      requires Valid() && Enabled(Contents(), Event.Verify(key, now, wellFormed, challengeId, xdr))
      modifies this, throttle, wallet
      ensures Valid()
      ensures (Contents(), r) == Apply(config, old(Contents()), Event.Verify(key, now, wellFormed, challengeId, xdr))
    {
      this.now := now;
      var lockedFor := throttle.IsLockedOut(key, now);
      if lockedFor > 0 { return TooManyAttempts; }
      if !wellFormed {
        throttle.RecordFailure(key, now);
        return MalformedProof;
      }
      var ok := wallet.VerifyWalletProof(now, challengeId, xdr);
      if !ok {
        throttle.RecordFailure(key, now);
        return ProofRefused;
      }
      throttle.ClearFailures(key);
      r := SignedIn;
    }
  }
}

/** Runs of sign-in requests: the lockout bound and the accounting of challenges. */
module SignInRuns {
  import opened Arithmetic
  import opened Counting
  import opened AdminSignIn

  ghost predicate Possible(c: Config, s: App, events: seq<Event>)
    decreases |events|
  {
    events == [] || (Enabled(s, events[0]) && Possible(c, Apply(c, s, events[0]).0, events[1..]))
  }

  function Run(c: Config, s: App, events: seq<Event>): App
    decreases |events|
  {
    if events == [] then s else Run(c, Apply(c, s, events[0]).0, events[1..])
  }

  function ResponseAt(c: Config, s: App, events: seq<Event>, i: nat): Response
    requires i < |events|
  {
    Apply(c, Run(c, s, events[..i]), events[i]).1
  }

  // ---------- Lockout ----------

  /** A request that got past the lock check and failed. */
  predicate Fails(r: Response) { r.WrongPassword? || r.MalformedProof? || r.ProofRefused? }

  /** The failing requests of address `k` in a run. */
  function Failures(c: Config, s: App, events: seq<Event>, k: string): nat
    decreases |events|
  {
    if events == [] then 0
    else
      var (t, r) := Apply(c, s, events[0]);
      (if KeyOf(s, events[0]) == k && Fails(r) then 1 else 0) + Failures(c, t, events[1..], k)
  }

  /** Address `k` never completes a sign-in. */
  ghost predicate NoSignIn(c: Config, s: App, events: seq<Event>, k: string)
    decreases |events|
  {
    events == [] ||
    (var (t, r) := Apply(c, s, events[0]);
     !(KeyOf(s, events[0]) == k && r.SignedIn?) && NoSignIn(c, t, events[1..], k))
  }

  /** The logins of address `k` whose password is being checked. */
  ghost function InFlight(s: App, k: string): set<Ticket> {
    set i | i in s.checking && s.checking[i] == k
  }

  /** At most `n` requests of address `k` are handled at once, each new one included. */
  ghost predicate Crowd(c: Config, s: App, events: seq<Event>, k: string, n: nat)
    decreases |events|
  {
    events == [] ||
    (&& (!events[0].Checked? && KeyOf(s, events[0]) == k ==> |InFlight(s, k)| < n)
     && Crowd(c, Apply(c, s, events[0]).0, events[1..], k, n))
  }

  /** What one lockout period can see: a batch of failures, and the checks in flight when it ends. */
  ghost function Batch(c: Config, n: nat): int { c.maxAttempts + n - 1 }

  /** Attempts for one span: a batch at once, and another after every lockout that fits. */
  ghost function Quota(c: Config, n: nat, span: int): int
    requires ValidConfig(c)
  {
    Batch(c, n) * (1 + span / c.lockoutMs)
  }

  /**
   What an address in state `a`, with `p` checks in flight, may still fail between `from` and `to`. An
   open address may use up its batch. A locked one either opens with the failures it has, or its checks
   in flight start another lockout before that.
   */
  ghost function Allowance(c: Config, n: nat, a: Attempts, p: nat, from: Time, to: Time): int
    requires ValidConfig(c)
  {
    if a.lockedUntil <= from then Quota(c, n, to - from) - a.failures
    else Larger(if a.lockedUntil <= to then Quota(c, n, to - a.lockedUntil) - a.failures else 0,
                p + Quota(c, n, to - from) - Batch(c, n))
  }

  ghost function Larger(x: int, y: int): int { if x < y then y else x }

  lemma QuotaGrows(c: Config, n: nat, x: int, y: int)
    requires ValidConfig(c) && x <= y
    ensures Quota(c, n, x) <= Quota(c, n, y)
  {
    DivMono(x, y, c.lockoutMs);
    MulMono(1 + x / c.lockoutMs, 1 + y / c.lockoutMs, Batch(c, n));
  }

  lemma QuotaStep(c: Config, n: nat, x: int)
    requires ValidConfig(c)
    ensures Quota(c, n, x - c.lockoutMs) == Quota(c, n, x) - Batch(c, n)
    ensures 0 <= x ==> Quota(c, n, x) >= Batch(c, n)
  {
    var q, l, b := x / c.lockoutMs, c.lockoutMs, Batch(c, n);
    DivBounds(x, l);
    DivBounds(x - l, l);
    assert (q - 1) * l == q * l - l;
    assert ((x - l) / l + 1) * l == (x - l) / l * l + l;
    CancelLess(q - 1, (x - l) / l + 1, l);
    CancelLess((x - l) / l, q, l);
    assert b * (1 + q) == b * (1 + (q - 1)) + b by { Distribute(b, 1, 0, 1); }
    if 0 <= x { DivMono(0, x, l); MulMono(1, 1 + q, b); }
  }

  /** A failure while the address is open costs one; the lockout it may start pays for the batch. */
  lemma FailurePays(c: Config, n: nat, a: Attempts, p: nat, at: Time, to: Time)
    requires ValidConfig(c) && a.failures < c.maxAttempts && at <= to && a.lockedUntil <= at && p + 1 <= n
    ensures AfterFailure(c, a, at).failures < c.maxAttempts
    ensures 1 + Allowance(c, n, AfterFailure(c, a, at), p, at, to) <= Allowance(c, n, a, p + 1, at, to)
  {
    QuotaStep(c, n, to - at);
  }

  /** A check that fails while the address is locked was in flight, and is no longer. */
  lemma LateFailurePays(c: Config, n: nat, a: Attempts, p: nat, at: Time, to: Time)
    requires ValidConfig(c) && a.failures < c.maxAttempts && at <= to && at < a.lockedUntil && p + 1 <= n
    ensures AfterFailure(c, a, at).failures < c.maxAttempts
    ensures 1 + Allowance(c, n, AfterFailure(c, a, at), p, at, to) <= Allowance(c, n, a, p + 1, at, to)
  {
    QuotaStep(c, n, to - at);
  }

  lemma WaitingKeepsAllowance(c: Config, n: nat, a: Attempts, p: nat, from: Time, at: Time, to: Time)
    requires ValidConfig(c) && a.failures < c.maxAttempts && from <= at <= to && 1 <= n
    ensures Allowance(c, n, a, p, at, to) <= Allowance(c, n, a, p, from, to)
    ensures 0 <= Allowance(c, n, a, p, from, to)
  {
    QuotaStep(c, n, to - from);
    QuotaGrows(c, n, to - at, to - from);
    if from < a.lockedUntil <= at {
      QuotaGrows(c, n, to - at, to - a.lockedUntil);
    }
  }

  lemma {:induction false} FailuresWithinAllowance(c: Config, s: App, events: seq<Event>, k: string, n: nat,
                                                   from: Time, to: Time)
    requires ValidConfig(c) && 1 <= n && Possible(c, s, events) && NoSignIn(c, s, events, k)
    requires Crowd(c, s, events, k, n) && |InFlight(s, k)| <= n
    requires AttemptsOf(s.attempts, k).failures < c.maxAttempts
    requires from <= to && forall e :: e in events ==> from <= e.now <= to
    ensures Failures(c, s, events, k) <= Allowance(c, n, AttemptsOf(s.attempts, k), |InFlight(s, k)|, from, to)
    decreases |events|
  {
    var a, p := AttemptsOf(s.attempts, k), |InFlight(s, k)|;
    if events == [] {
      WaitingKeepsAllowance(c, n, a, p, from, from, to);
    } else {
      var e, rest := events[0], events[1..];
      var t := Apply(c, s, e).0;
      assert e in events;
      LaterEvents(c, t, rest, e.now);
      forall x | x in rest ensures x.now <= to { assert x in events; }
      WaitingKeepsAllowance(c, n, a, p, from, e.now, to);
      OneEvent(c, s, e, k, n, to);
      FailuresWithinAllowance(c, t, rest, k, n, e.now, to);
    }
  }

  /** One event costs what it fails. */
  lemma OneEvent(c: Config, s: App, e: Event, k: string, n: nat, to: Time)
    requires ValidConfig(c) && 1 <= n && Enabled(s, e) && e.now <= to
    requires AttemptsOf(s.attempts, k).failures < c.maxAttempts && |InFlight(s, k)| <= n
    requires !e.Checked? && KeyOf(s, e) == k ==> |InFlight(s, k)| < n
    requires !(KeyOf(s, e) == k && Apply(c, s, e).1.SignedIn?)
    ensures var (t, r) := Apply(c, s, e);
            var a, b := AttemptsOf(s.attempts, k), AttemptsOf(t.attempts, k);
            && b.failures < c.maxAttempts && |InFlight(t, k)| <= n
            && (if KeyOf(s, e) == k && Fails(r) then 1 else 0) + Allowance(c, n, b, |InFlight(t, k)|, e.now, to)
               <= Allowance(c, n, a, |InFlight(s, k)|, e.now, to)
  {
    var (t, r) := Apply(c, s, e);
    var a, p := AttemptsOf(s.attempts, k), |InFlight(s, k)|;
    FlightChanges(c, s, e, k);
    if KeyOf(s, e) == k && Fails(r) {
      if e.Verify? {
        OpenIgnoresFlight(c, n, a, p, p + 1, e.now, to);
        FailurePays(c, n, a, p, e.now, to);
      } else if a.lockedUntil <= e.now {
        FailurePays(c, n, a, p - 1, e.now, to);
      } else {
        LateFailurePays(c, n, a, p - 1, e.now, to);
      }
    } else if KeyOf(s, e) == k && r.Checking? {
      OpenIgnoresFlight(c, n, a, p, p + 1, e.now, to);
    }
  }

  lemma OpenIgnoresFlight(c: Config, n: nat, a: Attempts, p: nat, q: nat, at: Time, to: Time)
    requires ValidConfig(c) && a.lockedUntil <= at
    ensures Allowance(c, n, a, p, at, to) == Allowance(c, n, a, q, at, to)
  {}

  /** A login that is let in is one more check in flight, a finished check one less. */
  lemma FlightChanges(c: Config, s: App, e: Event, k: string)
    requires Enabled(s, e)
    ensures var (t, r) := Apply(c, s, e);
            |InFlight(t, k)| == |InFlight(s, k)|
              + (if KeyOf(s, e) == k && r.Checking? then 1 else 0) - (if KeyOf(s, e) == k && e.Checked? then 1 else 0)
  {
    var t := Apply(c, s, e).0;
    match e
    case Login(ticket, key, _) =>
      if t.checking != s.checking { OneMoreFlying(s, t, ticket, key, k); } else { SameFlight(s, t, k); }
    case Checked(ticket, _, _, _, _) => OneLessFlying(s, t, ticket, k);
    case Verify(_, _, _, _, _) => SameFlight(s, t, k);
  }

  lemma SameFlight(s: App, t: App, k: string)
    requires t.checking == s.checking
    ensures InFlight(t, k) == InFlight(s, k)
  {}

  lemma OneMoreFlying(s: App, t: App, ticket: Ticket, key: string, k: string)
    requires ticket !in s.checking && t.checking == s.checking[ticket := key]
    ensures |InFlight(t, k)| == |InFlight(s, k)| + (if key == k then 1 else 0)
  {
    assert InFlight(t, k) == InFlight(s, k) + (if key == k then {ticket} else {});
  }

  lemma OneLessFlying(s: App, t: App, ticket: Ticket, k: string)
    requires ticket in s.checking && t.checking == s.checking - {ticket}
    ensures |InFlight(t, k)| == |InFlight(s, k)| - (if s.checking[ticket] == k then 1 else 0)
  {
    assert InFlight(t, k) == InFlight(s, k) - (if s.checking[ticket] == k then {ticket} else {});
  }

  lemma {:induction false} LaterEvents(c: Config, s: App, events: seq<Event>, at: Time)
    requires Possible(c, s, events) && at <= s.now
    ensures forall e :: e in events ==> at <= e.now
    decreases |events|
  {
    if events != [] {
      LaterEvents(c, Apply(c, s, events[0]).0, events[1..], at);
      forall e | e in events ensures at <= e.now {
        assert e == events[0] || e in events[1..];
      }
    }
  }

  /**
   In any span of length `w`, wherever it lies in a run, an address that completes no sign-in in it and
   has at most `n` requests handled at once gets at most `(maxAttempts + n - 1) * (1 + w / lockoutMs)`
   failing requests past the lock check.
   */
  lemma CrowdedLockoutBound(c: Config, before: seq<Event>, events: seq<Event>, k: string, n: nat, from: Time, w: nat)
    requires ValidConfig(c) && Possible(c, START, before) && Possible(c, Run(c, START, before), events)
    requires NoSignIn(c, Run(c, START, before), events, k)
    requires 1 <= n && |InFlight(Run(c, START, before), k)| <= n && Crowd(c, Run(c, START, before), events, k, n)
    requires forall e :: e in events ==> from <= e.now <= from + w
    ensures Failures(c, Run(c, START, before), events, k) <= (c.maxAttempts + n - 1) * (1 + w / c.lockoutMs)
  {
    var s := Run(c, START, before);
    BatchesStayOpen(c, START, before, k);
    FailuresWithinAllowance(c, s, events, k, n, from, from + w);
    AllowanceBelowQuota(c, n, AttemptsOf(s.attempts, k), |InFlight(s, k)|, from, w);
  }

  lemma AllowanceBelowQuota(c: Config, n: nat, a: Attempts, p: nat, from: Time, w: nat)
    requires ValidConfig(c) && p <= n && 1 <= n
    ensures Allowance(c, n, a, p, from, from + w) <= Quota(c, n, w)
  {
    QuotaStep(c, n, w);
    if from < a.lockedUntil <= from + w { QuotaGrows(c, n, from + w - a.lockedUntil, w); }
  }

  /** With requests of the address handled one at a time: a batch of `maxAttempts` per lockout. */
  lemma LockoutBound(c: Config, before: seq<Event>, events: seq<Event>, k: string, from: Time, w: nat)
    requires ValidConfig(c) && Possible(c, START, before) && Possible(c, Run(c, START, before), events)
    requires NoSignIn(c, Run(c, START, before), events, k)
    requires |InFlight(Run(c, START, before), k)| <= 1 && Crowd(c, Run(c, START, before), events, k, 1)
    requires forall e :: e in events ==> from <= e.now <= from + w
    ensures Failures(c, Run(c, START, before), events, k) <= c.maxAttempts * (1 + w / c.lockoutMs)
  {
    CrowdedLockoutBound(c, before, events, k, 1, from, w);
  }

  lemma {:induction false} BatchesStayOpen(c: Config, s: App, events: seq<Event>, k: string)
    requires ValidConfig(c) && AttemptsOf(s.attempts, k).failures < c.maxAttempts
    ensures AttemptsOf(Run(c, s, events).attempts, k).failures < c.maxAttempts
    decreases |events|
  {
    if events != [] {
      BatchesStayOpen(c, Apply(c, s, events[0]).0, events[1..], k);
    }
  }

  /**
   Only a failure or a completed sign-in moves the count of an address: over any run without them, with
   any number of correct passwords and challenges, its attempts are what they were.
   */
  lemma {:induction false} PasswordAloneKeepsCounts(c: Config, s: App, events: seq<Event>, k: string)
    requires Possible(c, s, events) && NoSignIn(c, s, events, k) && Failures(c, s, events, k) == 0
    ensures AttemptsOf(Run(c, s, events).attempts, k) == AttemptsOf(s.attempts, k)
    decreases |events|
  {
    if events != [] {
      PasswordAloneKeepsCounts(c, Apply(c, s, events[0]).0, events[1..], k);
    }
  }

  /** With the wallet required, a correct password by itself opens no session. */
  lemma PasswordAloneOpensNoSession(c: Config, s: App, e: Event)
    requires e.Checked? && e.passwordOk && !c.skipWallet
    ensures Apply(c, s, e).0.attempts == s.attempts
    ensures !Apply(c, s, e).1.SignedIn?
  {}

  /** A completed sign-in, with the wallet or without it, forgets the failures of its address and of no other. */
  lemma SignInClearsItsAddress(c: Config, s: App, e: Event, k: string)
    requires Enabled(s, e) && Apply(c, s, e).1.SignedIn?
    ensures AttemptsOf(Apply(c, s, e).0.attempts, k)
            == if KeyOf(s, e) == k then Attempts(0, 0) else AttemptsOf(s.attempts, k)
  {}

  /**
   What a checked password leads to: a wrong one never to more than a failure; a correct one to a session
   where no wallet is required, and otherwise to a challenge that can be answered for five minutes.
   */
  lemma PasswordDecides(c: Config, s: App, e: Event)
    requires Enabled(s, e) && e.Checked?
    ensures var (t, r) := Apply(c, s, e);
            && (r.SignedIn? <==> e.passwordOk && c.skipWallet)
            && (r == ChallengeIssued(e.freshId) <==> e.passwordOk && !c.skipWallet)
            && (r.WrongPassword? <==> !e.passwordOk)
            && (r.ChallengeIssued? ==>
                  e.freshId in t.outstanding && t.outstanding[e.freshId] == Challenge(e.freshNonce, e.now + 300000))
            && (forall id :: id in t.outstanding && id !in s.outstanding ==> r == ChallengeIssued(id))
  {}

  // ---------- The bound is sharp ----------

  /** One wrong password after the other, with `left` to go in this batch and `more` batches after it. */
  lemma {:induction false} Guess(c: Config, s: App, k: string, left: nat, more: nat, at: Time)
    returns (events: seq<Event>)
    requires ValidConfig(c) && s.now <= at && s.checking == map[] && s.used == {}
    requires 1 <= left <= c.maxAttempts && AttemptsOf(s.attempts, k).failures == c.maxAttempts - left
    requires AttemptsOf(s.attempts, k).lockedUntil <= at
    ensures Possible(c, s, events) && NoSignIn(c, s, events, k) && Crowd(c, s, events, k, 1)
    ensures Failures(c, s, events, k) == left + c.maxAttempts * more
    ensures forall e :: e in events ==> at <= e.now <= at + more * c.lockoutMs
    decreases more, left
  {
    var login, checked := Login(0, k, at), Checked(0, at, false, "", "");
    var t := Apply(c, s, login).0;
    var u := Apply(c, t, checked).0;
    assert u.checking == map[];
    var rest := [];
    if left > 1 {
      rest := Guess(c, u, k, left - 1, more, at);
    } else if more > 0 {
      rest := Guess(c, u, k, c.maxAttempts, more - 1, at + c.lockoutMs);
    }
    events := [login] + ([checked] + rest);
    WrongGuess(c, s, k, at, t, u, rest);
    BatchesAdd(c.maxAttempts, c.lockoutMs, more);
  }

  /** One wrong password in front of a run. */
  lemma WrongGuess(c: Config, s: App, k: string, at: Time, t: App, u: App, rest: seq<Event>)
    requires s.now <= at && s.checking == map[] && s.used == {} && AttemptsOf(s.attempts, k).lockedUntil <= at
    requires t == Apply(c, s, Login(0, k, at)).0 && u == Apply(c, t, Checked(0, at, false, "", "")).0
    requires Possible(c, u, rest) && NoSignIn(c, u, rest, k) && Crowd(c, u, rest, k, 1)
    ensures var events := [Login(0, k, at)] + ([Checked(0, at, false, "", "")] + rest);
            && Possible(c, s, events) && NoSignIn(c, s, events, k) && Crowd(c, s, events, k, 1)
            && Failures(c, s, events, k) == 1 + Failures(c, u, rest, k)
  {
    var tail := [Checked(0, at, false, "", "")] + rest;
    assert tail[1..] == rest && ([Login(0, k, at)] + tail)[1..] == tail;
    assert InFlight(s, k) == {};
    assert Possible(c, t, tail) && NoSignIn(c, t, tail, k) && Crowd(c, t, tail, k, 1);
    assert Failures(c, t, tail, k) == 1 + Failures(c, u, rest, k);
  }

  lemma BatchesAdd(m: nat, l: nat, more: nat)
    ensures 0 <= more * l
    ensures more > 0 ==> m + m * (more - 1) == m * more && l + (more - 1) * l == more * l
  {}

  /** For every address and every length of time some run fails as often as `LockoutBound` admits. */
  lemma LockoutBoundIsReached(c: Config, k: string, w: nat) returns (events: seq<Event>)
    requires ValidConfig(c)
    ensures Possible(c, START, events) && NoSignIn(c, START, events, k) && Crowd(c, START, events, k, 1)
    ensures forall e :: e in events ==> 0 <= e.now <= w
    ensures Failures(c, START, events, k) == c.maxAttempts * (1 + w / c.lockoutMs)
  {
    var q := w / c.lockoutMs;
    DivBounds(w, c.lockoutMs);
    events := Guess(c, START, k, c.maxAttempts, q, 0);
    Distribute(c.maxAttempts, 1, 0, 1);
    assert c.maxAttempts * (1 + q) == c.maxAttempts + c.maxAttempts * q;
  }

  // ---------- Challenges ----------

  /** A run in two parts. */
  lemma {:induction false} RunSplit(c: Config, s: App, events: seq<Event>, i: nat)
    requires i <= |events|
    ensures Run(c, s, events) == Run(c, Run(c, s, events[..i]), events[i..])
    ensures Possible(c, s, events) ==>
              Possible(c, s, events[..i]) && Possible(c, Run(c, s, events[..i]), events[i..])
    decreases |events|
  {
    if i == 0 {
      assert events[0..] == events;
    } else {
      RunSplit(c, Apply(c, s, events[0]).0, events[1..], i - 1);
      assert events[..i][1..] == events[1..][..i - 1];
      assert events[1..][i - 1..] == events[i..];
    }
  }

  /** Event `i` of a possible run is possible in the state it meets, and leads to the next one. */
  lemma EventOfRun(c: Config, s: App, events: seq<Event>, i: nat)
    requires Possible(c, s, events) && i < |events|
    ensures Enabled(Run(c, s, events[..i]), events[i])
    ensures Run(c, s, events[..i + 1]) == Apply(c, Run(c, s, events[..i]), events[i]).0
  {
    RunSplit(c, s, events, i);
    RunSplit(c, s, events[..i + 1], i);
    assert events[..i + 1][..i] == events[..i];
    assert events[..i + 1][i..] == [events[i]];
    assert [events[i]][1..] == [];
  }

  /** Every outstanding challenge was handed out. */
  ghost predicate Tracked(s: App) { s.outstanding.Keys <= s.used }

  lemma {:induction false} RunIsTracked(c: Config, s: App, events: seq<Event>)
    requires Tracked(s)
    ensures Tracked(Run(c, s, events))
    decreases |events|
  {
    if events != [] {
      RunIsTracked(c, Apply(c, s, events[0]).0, events[1..]);
    }
  }

  /** Event `i` is a request with the correct password that was answered with challenge `id`. */
  ghost predicate IssuedAt(c: Config, events: seq<Event>, i: nat, id: string) {
    && i < |events|
    && events[i].Checked? && events[i].passwordOk && events[i].freshId == id
    && ResponseAt(c, START, events, i) == ChallengeIssued(id)
  }

  /** Event `j` is a verification of challenge `id` that created a session. */
  ghost predicate SessionAt(c: Config, events: seq<Event>, j: nat, id: string) {
    && j < |events|
    && events[j].Verify? && events[j].challengeId == id
    && ResponseAt(c, START, events, j) == SignedIn
  }

  lemma {:induction false} OutstandingWasIssued(c: Config, events: seq<Event>, id: string)
    requires Possible(c, START, events) && !c.skipWallet
    requires id in Run(c, START, events).outstanding
    ensures exists i: nat :: IssuedAt(c, events, i, id)
              && Run(c, START, events).outstanding[id]
                 == Challenge(events[i].freshNonce, events[i].now + CHALLENGE_TTL_MS)
    decreases |events|
  {
    var n := |events| - 1;
    assert events[..|events|] == events;
    EventOfRun(c, START, events, n);
    RunSplit(c, START, events, n);
    var s := Run(c, START, events[..n]);
    if id in s.outstanding && Run(c, START, events).outstanding[id] == s.outstanding[id] {
      OutstandingWasIssued(c, events[..n], id);
      IssuedInPrefix(c, events, n, id, s.outstanding[id]);
    } else {
      assert IssuedAt(c, events, n, id);
    }
  }

  lemma IssuedInPrefix(c: Config, events: seq<Event>, n: nat, id: string, challenge: Challenge)
    requires n <= |events|
    requires exists i: nat :: IssuedAt(c, events[..n], i, id)
               && challenge == Challenge(events[..n][i].freshNonce, events[..n][i].now + CHALLENGE_TTL_MS)
    ensures exists i: nat :: i < n && IssuedAt(c, events, i, id)
              && challenge == Challenge(events[i].freshNonce, events[i].now + CHALLENGE_TTL_MS)
  {
    var i: nat :| IssuedAt(c, events[..n], i, id)
      && challenge == Challenge(events[..n][i].freshNonce, events[..n][i].now + CHALLENGE_TTL_MS);
    assert events[..n][..i] == events[..i];
    assert IssuedAt(c, events, i, id);
  }

  /**
   Every session traces to a challenge that was issued earlier after a correct password, had not
   expired, and was proved with a signature for its own nonce.
   */
  lemma SessionTracesToItsChallenge(c: Config, events: seq<Event>, j: nat, id: string)
    requires Possible(c, START, events) && !c.skipWallet && SessionAt(c, events, j, id)
    ensures exists i: nat :: i < j && IssuedAt(c, events, i, id)
              && events[j].now < events[i].now + CHALLENGE_TTL_MS
              && c.proves(events[i].freshNonce, events[j].xdr)
  {
    RunSplit(c, START, events, j);
    OutstandingWasIssued(c, events[..j], id);
    IssuedInPrefix(c, events, j, id, Run(c, START, events[..j]).outstanding[id]);
  }

  /** A challenge that is used and no longer outstanding never becomes outstanding again. */
  lemma {:induction false} SpentStaysSpent(c: Config, s: App, events: seq<Event>, id: string)
    requires Possible(c, s, events) && id in s.used && id !in s.outstanding
    ensures id in Run(c, s, events).used && id !in Run(c, s, events).outstanding
    decreases |events|
  {
    if events != [] {
      SpentStaysSpent(c, Apply(c, s, events[0]).0, events[1..], id);
    }
  }

  /** A verification reached the challenge: the address was not locked out and the request well-formed. */
  ghost predicate ConsumedAt(c: Config, events: seq<Event>, j: nat, id: string) {
    && j < |events|
    && events[j].Verify? && events[j].challengeId == id
    && (ResponseAt(c, START, events, j) == SignedIn || ResponseAt(c, START, events, j) == ProofRefused)
  }

  /** Whatever its outcome, the first proof of an issued challenge is the last that can succeed. */
  lemma ConsumedOnce(c: Config, events: seq<Event>, i: nat, j: nat, id: string)
    requires Possible(c, START, events) && i < j
    requires ConsumedAt(c, events, i, id) && id in Run(c, START, events[..i]).used
    ensures !SessionAt(c, events, j, id)
  {
    if j < |events| {
      EventOfRun(c, START, events, i);
      RunSplit(c, START, events, j);
      RunSplit(c, START, events[..j], i + 1);
      assert events[..j][..i + 1] == events[..i + 1];
      SpentStaysSpent(c, Run(c, START, events[..i + 1]), events[..j][i + 1..], id);
    }
  }

  lemma {:induction false} TimesAscend(c: Config, events: seq<Event>, m: nat, j: nat)
    requires Possible(c, START, events) && m <= j < |events|
    ensures events[m].now <= events[j].now
    decreases j
  {
    if m < j {
      TimesAscend(c, events, m, j - 1);
      EventOfRun(c, START, events, j - 1);
      EventOfRun(c, START, events, j);
    }
  }

  /** No step takes a challenge away but a proof of it and the end of its time. */
  lemma StaysOutstanding(c: Config, s: App, e: Event, id: string, challenge: Challenge)
    requires Enabled(s, e) && id in s.used && id in s.outstanding && s.outstanding[id] == challenge
    requires e.now < challenge.expiresAt
    requires e.Verify? && e.challengeId == id ==>
               !Apply(c, s, e).1.SignedIn? && !Apply(c, s, e).1.ProofRefused?
    ensures var t := Apply(c, s, e).0; id in t.used && id in t.outstanding && t.outstanding[id] == challenge
  {}

  lemma IssueIsOutstanding(c: Config, s: App, e: Event, id: string)
    requires Enabled(s, e) && e.Checked? && e.freshId == id && Apply(c, s, e).1 == ChallengeIssued(id)
    ensures var t := Apply(c, s, e).0;
            id in t.used && id in t.outstanding
            && t.outstanding[id] == Challenge(e.freshNonce, e.now + CHALLENGE_TTL_MS)
  {}

  /** An issued challenge stays outstanding until a proof consumes it or its time is over. */
  lemma {:induction false} OutstandingUntilConsumed(c: Config, events: seq<Event>, i: nat, j: nat, id: string)
    requires Possible(c, START, events) && IssuedAt(c, events, i, id) && i < j <= |events|
    requires forall m: nat :: i < m < j ==> !ConsumedAt(c, events, m, id)
    requires forall m: nat :: i < m < j ==> events[m].now < events[i].now + CHALLENGE_TTL_MS
    ensures var s := Run(c, START, events[..j]);
            id in s.used && id in s.outstanding
            && s.outstanding[id] == Challenge(events[i].freshNonce, events[i].now + CHALLENGE_TTL_MS)
    decreases j
  {
    var before, e := Run(c, START, events[..j - 1]), events[j - 1];
    EventOfRun(c, START, events, j - 1);
    if i < j - 1 {
      OutstandingUntilConsumed(c, events, i, j - 1, id);
      assert !ConsumedAt(c, events, j - 1, id);
      StaysOutstanding(c, before, e, id, Challenge(events[i].freshNonce, events[i].now + CHALLENGE_TTL_MS));
    } else {
      IssueIsOutstanding(c, before, e, id);
    }
  }

  /**
   Exactly which verifications sign in: well-formed ones from an address that is not locked out, for a
   challenge issued after a correct password less than five minutes (300 000 ms) before, proved with its
   own nonce, with no proof of it in between.
   */
  lemma SessionExactlyWhen(c: Config, events: seq<Event>, j: nat, id: string)
    requires Possible(c, START, events) && !c.skipWallet
    requires j < |events| && events[j].Verify? && events[j].challengeId == id
    ensures SessionAt(c, events, j, id) <==>
            && events[j].wellFormed
            && AttemptsOf(Run(c, START, events[..j]).attempts, events[j].key).lockedUntil <= events[j].now
            && exists i: nat :: i < j && ProvesFreshly(c, events, i, j, id)
  {
    RunSplit(c, START, events, j);
    if SessionAt(c, events, j, id) {
      SessionTracesToItsChallenge(c, events, j, id);
      var i: nat :| i < j && IssuedAt(c, events, i, id) && events[j].now < events[i].now + CHALLENGE_TTL_MS
        && c.proves(events[i].freshNonce, events[j].xdr);
      forall m: nat | i < m < j ensures !ConsumedAt(c, events, m, id) {
        if ConsumedAt(c, events, m, id) {
          IssuedIsUsed(c, events, i, m, id);
          ConsumedOnce(c, events, m, j, id);
        }
      }
      assert ProvesFreshly(c, events, i, j, id);
    }
    if i: nat :| i < j && ProvesFreshly(c, events, i, j, id) {
      forall m: nat | i < m < j ensures events[m].now < events[i].now + CHALLENGE_TTL_MS {
        TimesAscend(c, events, m, j);
      }
      OutstandingUntilConsumed(c, events, i, j, id);
    }
  }

  /** Event `j` proves the challenge that event `i` issued, in time and as the first to do so. */
  ghost predicate ProvesFreshly(c: Config, events: seq<Event>, i: nat, j: nat, id: string) {
    && IssuedAt(c, events, i, id) && j < |events| && events[j].Verify?
    && events[j].now < events[i].now + 300000
    && c.proves(events[i].freshNonce, events[j].xdr)
    && forall m: nat :: i < m < j ==> !ConsumedAt(c, events, m, id)
  }

  /** What was issued stays among the ids handed out. */
  lemma {:induction false} IssuedIsUsed(c: Config, events: seq<Event>, i: nat, m: nat, id: string)
    requires Possible(c, START, events) && IssuedAt(c, events, i, id) && i < m <= |events|
    ensures id in Run(c, START, events[..m]).used
    decreases m
  {
    EventOfRun(c, START, events, m - 1);
    if i < m - 1 {
      IssuedIsUsed(c, events, i, m - 1, id);
    }
  }

  /** Different sessions come from different challenges. */
  lemma SessionsHaveDistinctChallenges(c: Config, events: seq<Event>, i: nat, j: nat, id: string)
    requires Possible(c, START, events) && !c.skipWallet
    requires SessionAt(c, events, i, id) && SessionAt(c, events, j, id)
    ensures i == j
  {
    RunIsTracked(c, START, events[..i]);
    RunIsTracked(c, START, events[..j]);
    if i < j {
      ConsumedOnce(c, events, i, j, id);
    } else if j < i {
      ConsumedOnce(c, events, j, i, id);
    }
  }

  function Sessions(c: Config, s: App, events: seq<Event>): nat
    decreases |events|
  {
    if events == [] then 0
    else
      var (t, r) := Apply(c, s, events[0]);
      (if r.SignedIn? then 1 else 0) + Sessions(c, t, events[1..])
  }

  function CorrectPasswords(c: Config, s: App, events: seq<Event>): nat
    decreases |events|
  {
    if events == [] then 0
    else
      var (t, r) := Apply(c, s, events[0]);
      (if events[0].Checked? && events[0].passwordOk then 1 else 0)
      + CorrectPasswords(c, t, events[1..])
  }

  lemma SweptIsNoLarger(m: map<string, Challenge>, now: Time)
    ensures |Swept(m, now)| <= |m|
  {
    assert Swept(m, now).Keys <= m.Keys;
    SubsetCard(Swept(m, now).Keys, m.Keys);
  }

  lemma OneMore(m: map<string, Challenge>, id: string, challenge: Challenge)
    ensures |m[id := challenge]| <= |m| + 1
  {
    assert m[id := challenge].Keys == m.Keys + {id};
  }

  lemma OneLess(m: map<string, Challenge>, id: string)
    ensures |m - {id}| + (if id in m then 1 else 0) == |m|
  {
    assert (m - {id}).Keys == m.Keys - {id};
  }

  /** One request opens at most one challenge per correct password, and a session closes one. */
  lemma StepIsPaidFor(c: Config, s: App, e: Event)
    requires !c.skipWallet
    ensures var (t, r) := Apply(c, s, e);
            (if r.SignedIn? then 1 else 0) + |t.outstanding|
            <= (if e.Checked? && e.passwordOk then 1 else 0) + |s.outstanding|
  {
    var live := Swept(s.outstanding, e.now);
    SweptIsNoLarger(s.outstanding, e.now);
    match e
    case Login(_, _, _) =>
    case Checked(_, now, _, id, nonce) => OneMore(live, id, Challenge(nonce, now + CHALLENGE_TTL_MS));
    case Verify(_, _, _, id, _) => OneLess(live, id);
  }

  /** Sessions and open challenges together never outnumber the correct passwords that paid for them. */
  lemma {:induction false} SessionsArePaidFor(c: Config, s: App, events: seq<Event>)
    requires !c.skipWallet
    ensures Sessions(c, s, events) + |Run(c, s, events).outstanding|
            <= CorrectPasswords(c, s, events) + |s.outstanding|
    decreases |events|
  {
    if events != [] {
      StepIsPaidFor(c, s, events[0]);
      SessionsArePaidFor(c, Apply(c, s, events[0]).0, events[1..]);
    }
  }

  lemma SessionsNeverOutnumberPasswords(c: Config, events: seq<Event>)
    requires !c.skipWallet
    ensures Sessions(c, START, events) <= CorrectPasswords(c, START, events)
  {
    SessionsArePaidFor(c, START, events);
  }
}
