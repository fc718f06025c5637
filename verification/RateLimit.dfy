/**
 The shared fixed-window rate limiter (backend/src/middleware/rate-limit.ts): one Redis counter per
 key, incremented by any number of API instances whose INCR, PEXPIRE and PTTL commands interleave.

 `Limiter` is the counter together with the calls in flight; `hits`, `generation`, `start`, `expiries`
 and `lives` record what happened and are not part of the program. No Redis error, DECR or DEL occurs.
 */
module RateLimit {
  import opened Wrappers
  import opened Counting

  type Time = nat
  type CallId = nat

  datatype Counter = Counter(count: nat, expiry: Option<Time>)

  /** What a call still has to do: set the expiry of the window it opened, then read the TTL. */
  datatype Phase = SetExpiry | ReadTtl

  /** An increment that returned `count`, in the given generation of the counter. */
  datatype Hit = Hit(call: CallId, time: Time, generation: nat, count: nat)

  /** A generation of the counter from the INCR that made it to its eviction. */
  datatype Life = Life(start: Time, end: Time)

  datatype Limiter = Limiter(
    now: Time,
    counter: Option<Counter>,
    calls: map<CallId, Phase>,
    hits: seq<Hit>,
    generation: nat,
    start: Time,
    expiries: seq<nat>,
    lives: seq<Life>)

  const FRESH: Limiter := Limiter(0, None, map[], [], 0, 0, [], [])

  datatype Event =
    | Tick(to: Time)
    | Evict
    | Incr(call: CallId)
    | PExpire(call: CallId)
    | PTtl(call: CallId)

  /** Redis drops a key at some moment after its expiry, never before. */
  predicate Enabled(s: Limiter, e: Event) {
    match e
    case Tick(to) => s.now <= to
    case Evict => s.counter.Some? && s.counter.value.expiry.Some? && s.counter.value.expiry.value <= s.now
    case Incr(c) => c !in s.calls
    case PExpire(c) => c in s.calls && s.calls[c] == SetExpiry
    case PTtl(c) => c in s.calls && s.calls[c] == ReadTtl
  }

  /** INCR creates a missing key with value one and no expiry. */
  function Incremented(s: Limiter, c: CallId): Limiter {
    match s.counter
    case None =>
      s.(counter := Some(Counter(1, None)),
         calls := s.calls[c := SetExpiry],
         generation := s.generation + 1,
         start := s.now,
         expiries := s.expiries + [0],
         hits := s.hits + [Hit(c, s.now, s.generation + 1, 1)])
    case Some(live) =>
      var n := live.count + 1;
      s.(counter := Some(live.(count := n)),
         calls := s.calls[c := if n == 1 then SetExpiry else ReadTtl],
         hits := s.hits + [Hit(c, s.now, s.generation, n)])
  }

  function Apply(windowMs: nat, s: Limiter, e: Event): Limiter
    requires Enabled(s, e)
  {
    match e
    case Tick(to) => s.(now := to)
    case Evict => s.(counter := None, lives := s.lives + [Life(s.start, s.now)])
    case Incr(c) => Incremented(s, c)
    case PExpire(c) =>
      var waiting := s.(calls := s.calls[c := ReadTtl]);
      if s.counter.None? || |s.expiries| == 0 then waiting
      else
        waiting.(counter := Some(s.counter.value.(expiry := Some(s.now + windowMs))),
                 expiries := s.expiries[|s.expiries| - 1 := s.expiries[|s.expiries| - 1] + 1])
    case PTtl(c) => s.(calls := s.calls - {c})
  }

  ghost predicate Reaches(windowMs: nat, s: Limiter, events: seq<Event>, t: Limiter)
    decreases |events|
  {
    if events == [] then s == t
    else Enabled(s, events[0]) && Reaches(windowMs, Apply(windowMs, s, events[0]), events[1..], t)
  }

  // ---------- What every interleaving keeps ----------

  /** Every finished window had exactly one expiry; the current one has it exactly when it is set. */
  ghost predicate WindowInv(windowMs: nat, s: Limiter) {
    && |s.expiries| == s.generation
    && |s.lives| == (if s.counter.Some? then s.generation - 1 else s.generation)
    && (forall g :: 0 <= g < |s.lives| ==> s.lives[g].start + windowMs <= s.lives[g].end)
    && s.start <= s.now
    && (forall g :: 0 <= g < s.generation - 1 ==> s.expiries[g] == 1)
    && (s.counter.None? && s.generation > 0 ==> s.expiries[s.generation - 1] == 1 && s.start + windowMs <= s.now)
    && (s.counter.Some? ==>
          && s.generation > 0 && s.counter.value.count > 0
          && match s.counter.value.expiry {
               case None => s.expiries[s.generation - 1] == 0
               case Some(e) => s.expiries[s.generation - 1] == 1 && s.start + windowMs <= e <= s.now + windowMs
             })
  }

  /** At most one call is about to set an expiry, and only for the live window, which has none yet. */
  ghost predicate OpenerInv(s: Limiter) {
    && (forall c :: c in s.calls && s.calls[c] == SetExpiry ==> s.counter.Some? && s.counter.value.expiry.None?)
    && (forall c, d :: c in s.calls && d in s.calls && s.calls[c] == s.calls[d] == SetExpiry ==> c == d)
  }

  ghost predicate HitInv(windowMs: nat, s: Limiter) {
    && (forall i :: 0 <= i < |s.hits| ==>
          && 1 <= s.hits[i].generation <= s.generation && 1 <= s.hits[i].count && s.hits[i].time <= s.now
          && (s.hits[i].generation == s.generation && s.counter.Some? ==> s.hits[i].count <= s.counter.value.count)
          && (s.hits[i].generation < s.generation ==> s.hits[i].time <= s.start)
          && (s.hits[i].generation + 2 <= s.generation ==> s.hits[i].time + windowMs <= s.start)
          && (s.hits[i].count == 1 && s.hits[i].generation == s.generation ==> s.hits[i].time == s.start)
          && (s.hits[i].count == 1 && s.hits[i].generation < s.generation ==> s.hits[i].time + windowMs <= s.start))
    && (forall i, j :: 0 <= i < j < |s.hits| ==> Separated(windowMs, s.hits[i], s.hits[j]))
  }

  /** How an earlier and a later hit relate. */
  predicate Separated(windowMs: nat, a: Hit, b: Hit) {
    && a.generation <= b.generation
    && (a.generation == b.generation ==> a.count < b.count)
    && (a.generation + 2 <= b.generation ==> a.time + windowMs <= b.time)
    && (a.generation < b.generation && a.count == 1 ==> a.time + windowMs <= b.time)
  }

  ghost predicate Inv(windowMs: nat, s: Limiter) {
    WindowInv(windowMs, s) && OpenerInv(s) && HitInv(windowMs, s)
  }

  lemma StepKeepsWindow(windowMs: nat, s: Limiter, e: Event)
    requires WindowInv(windowMs, s) && OpenerInv(s) && Enabled(s, e)
    ensures WindowInv(windowMs, Apply(windowMs, s, e)) && OpenerInv(Apply(windowMs, s, e))
  {}

  lemma StepKeepsHits(windowMs: nat, s: Limiter, e: Event)
    requires Inv(windowMs, s) && Enabled(s, e)
    ensures HitInv(windowMs, Apply(windowMs, s, e))
  {
    if e.Incr? {
      var t := Apply(windowMs, s, e);
      var n := |s.hits|;
      forall i | 0 <= i < n ensures Separated(windowMs, s.hits[i], t.hits[n]) {
        assert t.hits[i] == s.hits[i];
      }
    }
  }

  lemma {:induction false} ReachKeepsInv(windowMs: nat, s: Limiter, events: seq<Event>, t: Limiter)
    requires Inv(windowMs, s) && Reaches(windowMs, s, events, t)
    ensures Inv(windowMs, t)
    decreases |events|
  {
    if events != [] {
      StepKeepsWindow(windowMs, s, events[0]);
      StepKeepsHits(windowMs, s, events[0]);
      ReachKeepsInv(windowMs, Apply(windowMs, s, events[0]), events[1..], t);
    }
  }

  // ---------- The bound ----------

  /**
   Each counter generation gets exactly one expiry and lives at least one window, however the
   instances interleave.
   */
  lemma EveryWindowExpiresOnce(windowMs: nat, events: seq<Event>, t: Limiter)
    requires Reaches(windowMs, FRESH, events, t)
    ensures |t.expiries| == t.generation
    ensures |t.lives| == (if t.counter.Some? then t.generation - 1 else t.generation)
    ensures forall g :: 0 <= g < |t.lives| ==> t.expiries[g] == 1 && t.lives[g].start + windowMs <= t.lives[g].end
    ensures t.counter.Some? ==> t.expiries[t.generation - 1] == (if t.counter.value.expiry.Some? then 1 else 0)
  {
    ReachKeepsInv(windowMs, FRESH, events, t);
  }

  /** The call that opened a window always meets it live and without an expiry, and gives it one window from now. */
  lemma ExpiryIsOneWindowAhead(windowMs: nat, s: Limiter, c: CallId)
    requires Inv(windowMs, s) && Enabled(s, PExpire(c))
    ensures s.counter.Some? && s.counter.value.expiry.None?
    ensures Apply(windowMs, s, PExpire(c)).counter == Some(Counter(s.counter.value.count, Some(s.now + windowMs)))
  {}

  /** The hits of a half-open interval one window long that saw a count within the limit. */
  ghost function Admitted(t: Limiter, limit: nat, from: Time, windowMs: nat): set<int> {
    set i | 0 <= i < |t.hits| && from <= t.hits[i].time < from + windowMs && t.hits[i].count <= limit
  }

  /**
   In any interval of one window's length fewer than twice the limit are admitted: where it meets two
   windows, the hit that opened the first of them lies before it.
   */
  lemma LessThanTwiceTheLimit(windowMs: nat, events: seq<Event>, t: Limiter, limit: nat, from: Time)
    requires Reaches(windowMs, FRESH, events, t)
    ensures |Admitted(t, limit, from, windowMs)| <= if limit == 0 then 0 else 2 * limit - 1
  {
    ReachKeepsInv(windowMs, FRESH, events, t);
    var admitted := Admitted(t, limit, from, windowMs);
    if exists k :: 0 <= k < |t.hits| && k in admitted {
      var first := FirstIn(admitted, 0, |t.hits|);
      var g := t.hits[first].generation;
      forall i | i in admitted ensures g <= t.hits[i].generation <= g + 1 {
        assert first < i ==> Separated(windowMs, t.hits[first], t.hits[i]);
      }
      SlotsAreDistinct(windowMs, t, limit, from, g);
      DistinctCodes(admitted, i => SlotOf(t, g, limit, i), 2 * limit - 1);
    } else {
      assert admitted == {};
    }
  }

  lemma SlotsAreDistinct(windowMs: nat, t: Limiter, limit: nat, from: Time, g: nat)
    requires Inv(windowMs, t) && 0 < limit
    requires forall i :: i in Admitted(t, limit, from, windowMs) ==> g <= t.hits[i].generation <= g + 1
    ensures forall i :: i in Admitted(t, limit, from, windowMs) ==> 0 <= SlotOf(t, g, limit, i) < 2 * limit - 1
    ensures forall i, j :: (i in Admitted(t, limit, from, windowMs) && j in Admitted(t, limit, from, windowMs)
                            && SlotOf(t, g, limit, i) == SlotOf(t, g, limit, j)) ==> i == j
  {
    var admitted := Admitted(t, limit, from, windowMs);
    forall i, j | i in admitted && j in admitted && SlotOf(t, g, limit, i) == SlotOf(t, g, limit, j)
      ensures i == j
    {
      assert i < j ==> Separated(windowMs, t.hits[i], t.hits[j]);
      assert j < i ==> Separated(windowMs, t.hits[j], t.hits[i]);
    }
  }

  /**
   Position of an admitted hit among the slots of two consecutive generations: counts from 2 of the
   first, and all of the second; the opener of the first shares its slot with that of the second.
   */
  function SlotOf(t: Limiter, g: nat, limit: nat, i: int): int {
    if 0 <= i < |t.hits| then
      if t.hits[i].generation == g && t.hits[i].count > 1 then t.hits[i].count - 2
      else limit - 1 + t.hits[i].count - 1
    else -1
  }

  lemma {:induction false} OneMoreStep(windowMs: nat, s: Limiter, events: seq<Event>, t: Limiter, e: Event)
    requires Reaches(windowMs, s, events, t) && Enabled(t, e)
    ensures Reaches(windowMs, s, events + [e], Apply(windowMs, t, e))
    decreases |events|
  {
    if events == [] {
      assert [e][1..] == [];
    } else {
      OneMoreStep(windowMs, Apply(windowMs, s, events[0]), events[1..], t, e);
      assert (events + [e])[1..] == events[1..] + [e];
    }
  }

  /** `n` hits at once: what a burst of `n` increments adds, counting on from `count`. */
  function Burst(first: CallId, time: Time, generation: nat, count: nat, n: nat): seq<Hit> {
    seq(n, i requires 0 <= i < n => Hit(first + i, time, generation, count + i + 1))
  }

  /** `n` more increments of the live counter, by calls that are new. */
  lemma {:induction false} More(windowMs: nat, events: seq<Event>, t: Limiter, first: CallId, n: nat)
    returns (more: seq<Event>, u: Limiter)
    requires Reaches(windowMs, FRESH, events, t) && t.counter.Some? && forall c :: c in t.calls ==> c < first
    ensures Reaches(windowMs, FRESH, more, u)
    ensures u.hits == t.hits + Burst(first, t.now, t.generation, t.counter.value.count, n)
    ensures u.now == t.now && u.generation == t.generation && (forall c :: c in u.calls ==> c < first + n)
    ensures u.counter == Some(t.counter.value.(count := t.counter.value.count + n))
    decreases n
  {
    if n == 0 {
      more, u := events, t;
    } else {
      var before, s := More(windowMs, events, t, first, n - 1);
      more, u := Then(windowMs, before, s, Incr(first + n - 1));
      BurstGrows(first, t.now, t.generation, t.counter.value.count, n - 1);
      assert t.hits + Burst(first, t.now, t.generation, t.counter.value.count, n)
          == t.hits + Burst(first, t.now, t.generation, t.counter.value.count, n - 1)
             + [Hit(first + n - 1, t.now, t.generation, t.counter.value.count + n)];
    }
  }

  lemma BurstGrows(first: CallId, time: Time, generation: nat, count: nat, n: nat)
    ensures Burst(first, time, generation, count, n + 1)
            == Burst(first, time, generation, count, n) + [Hit(first + n, time, generation, count + n + 1)]
  {}

  lemma Then(windowMs: nat, events: seq<Event>, t: Limiter, e: Event) returns (more: seq<Event>, u: Limiter)
    requires Reaches(windowMs, FRESH, events, t) && Enabled(t, e)
    ensures Reaches(windowMs, FRESH, more, u) && u == Apply(windowMs, t, e)
  {
    OneMoreStep(windowMs, FRESH, events, t, e);
    more, u := events + [e], Apply(windowMs, t, e);
  }

  /** A window opened at time 0 that is overdue but still live at the time it was to end. */
  lemma OverdueWindow(windowMs: nat) returns (events: seq<Event>, t: Limiter)
    ensures Reaches(windowMs, FRESH, events, t)
    ensures t.hits == [Hit(0, 0, 1, 1)] && t.now == windowMs && t.generation == 1 && t.calls.Keys == {0}
    ensures t.counter == Some(Counter(1, Some(windowMs)))
  {
    events, t := [], FRESH;
    events, t := Then(windowMs, events, t, Incr(0));
    events, t := Then(windowMs, events, t, PExpire(0));
    events, t := Then(windowMs, events, t, Tick(windowMs));
  }

  /** The next window, opened at the same moment, and `n` hits in it. */
  lemma NextWindow(windowMs: nat, events: seq<Event>, t: Limiter, first: CallId, n: nat)
    returns (more: seq<Event>, u: Limiter)
    requires Reaches(windowMs, FRESH, events, t) && Enabled(t, Evict) && 0 < n
    requires forall c :: c in t.calls ==> c < first
    ensures Reaches(windowMs, FRESH, more, u)
    ensures u.hits == t.hits + Burst(first, t.now, t.generation + 1, 0, n)
  {
    more, u := Then(windowMs, events, t, Evict);
    more, u := Then(windowMs, more, u, Incr(first));
    var opener := Hit(first, t.now, t.generation + 1, 1);
    assert u.hits == t.hits + [opener];
    more, u := More(windowMs, more, u, first + 1, n - 1);
    BurstHead(first, t.now, t.generation + 1, n - 1);
    assert t.hits + [opener] + Burst(first + 1, t.now, t.generation + 1, 1, n - 1)
        == t.hits + ([opener] + Burst(first + 1, t.now, t.generation + 1, 1, n - 1));
  }

  lemma BurstHead(first: CallId, time: Time, generation: nat, n: nat)
    ensures Burst(first, time, generation, 0, n + 1)
            == [Hit(first, time, generation, 1)] + Burst(first + 1, time, generation, 1, n)
  {}

  /** The bound is sharp: for every window and every positive limit some interval admits that many. */
  lemma BoundIsReached(windowMs: nat, limit: nat) returns (events: seq<Event>, t: Limiter)
    requires 0 < windowMs && 0 < limit
    ensures Reaches(windowMs, FRESH, events, t)
    ensures |Admitted(t, limit, windowMs, windowMs)| == 2 * limit - 1
  {
    events, t := OverdueWindow(windowMs);
    events, t := More(windowMs, events, t, 1, limit - 1);
    events, t := NextWindow(windowMs, events, t, limit, limit);
    var late, next := Burst(1, windowMs, 1, 1, limit - 1), Burst(limit, windowMs, 2, 0, limit);
    assert t.hits == [Hit(0, 0, 1, 1)] + late + next;
    forall i ensures i in Admitted(t, limit, windowMs, windowMs) <==> 1 <= i < 2 * limit {
      assert 1 <= i < limit ==> t.hits[i] == late[i - 1];
      assert limit <= i < 2 * limit ==> t.hits[i] == next[i - limit];
    }
    RangeCard(1, 2 * limit);
    assert Admitted(t, limit, windowMs, windowMs) == Range(1, 2 * limit);
  }

  /** The least member of `s` from `low` on. */
  ghost function FirstIn(s: set<int>, low: int, high: int): (x: int)
    requires exists k :: k in s && low <= k < high
    ensures x in s
    ensures forall y :: y in s && low <= y ==> x <= y
    decreases high - low
  {
    if low in s then low else FirstIn(s, low + 1, high)
  }

  // ---------- The store ----------

  /** Redis as the store uses it; other instances may run whenever the store awaits an answer. */
  class RateLimitRedis {
    const windowMs: nat
    var state: Limiter

    constructor (windowMs: nat)
      ensures this.windowMs == windowMs && state == FRESH && Inv(windowMs, state)
    {
      this.windowMs, state := windowMs, FRESH;
    }

    /** Any number of steps of other calls, of time and of Redis; the caller's own call stands still. */
    method Others(mine: CallId)
      requires Inv(windowMs, state)
      modifies this
      ensures Inv(windowMs, state)
      ensures Later(old(state), state)
      ensures mine in state.calls <==> mine in old(state).calls
      ensures mine in state.calls ==> state.calls[mine] == old(state).calls[mine]
    {
      var steps: nat := *;
      while steps > 0
        invariant Inv(windowMs, state)
        invariant Later(old(state), state)
        invariant mine in state.calls <==> mine in old(state).calls
        invariant mine in state.calls ==> state.calls[mine] == old(state).calls[mine]
      {
        steps := steps - 1;
        OneOther(mine);
      }
    }

    /** At most one step, of anyone but the caller. */
    method OneOther(mine: CallId)
      requires Inv(windowMs, state)
      modifies this
      ensures Inv(windowMs, state)
      ensures Later(old(state), state)
      ensures mine in state.calls <==> mine in old(state).calls
      ensures mine in state.calls ==> state.calls[mine] == old(state).calls[mine]
    {
      var e: Event := *;
      var of: Option<CallId> := match e {
        case Tick(_) => None
        case Evict => None
        case Incr(c) => Some(c)
        case PExpire(c) => Some(c)
        case PTtl(c) => Some(c)
      };
      if Enabled(state, e) && of != Some(mine) {
        Take(e);
      }
    }

    method Take(e: Event)
      requires Inv(windowMs, state) && Enabled(state, e)
      modifies this
      ensures state == Apply(windowMs, old(state), e)
      ensures Inv(windowMs, state) && Later(old(state), state)
    {
      StepKeepsWindow(windowMs, state, e);
      StepKeepsHits(windowMs, state, e);
      state := Apply(windowMs, state, e);
    }

    method Incr(c: CallId) returns (count: nat)
      requires Inv(windowMs, state) && Enabled(state, Event.Incr(c))
      modifies this
      ensures state == Apply(windowMs, old(state), Event.Incr(c))
      ensures Inv(windowMs, state) && Later(old(state), state)
      ensures state.counter.Some? && count == state.counter.value.count
    {
      Take(Event.Incr(c));
      count := state.counter.value.count;
    }

    method PExpire(c: CallId)
      requires Inv(windowMs, state) && Enabled(state, Event.PExpire(c))
      modifies this
      ensures state == Apply(windowMs, old(state), Event.PExpire(c))
      ensures Inv(windowMs, state) && Later(old(state), state)
    {
      Take(Event.PExpire(c));
    }

    /** The remaining life of the key; not positive when it is gone, has no expiry or is overdue. */
    method PTtl(c: CallId) returns (ttl: int)
      requires Inv(windowMs, state) && Enabled(state, Event.PTtl(c))
      modifies this
      ensures state == Apply(windowMs, old(state), Event.PTtl(c))
      ensures Inv(windowMs, state) && Later(old(state), state)
      ensures ttl <= windowMs
      ensures ttl > 0 <==> ExpiresAhead(state)
      ensures ttl > 0 ==> state.now + ttl == state.counter.value.expiry.value
    {
      ttl := if state.counter.None? then -2
             else if state.counter.value.expiry.None? then -1
             else state.counter.value.expiry.value - state.now;
      Take(Event.PTtl(c));
    }
  }

  /** The live window has its expiry, and it is still to come. */
  predicate ExpiresAhead(s: Limiter) {
    s.counter.Some? && s.counter.value.expiry.Some? && s.counter.value.expiry.value > s.now
  }

  /** Time only moves on and nothing that happened is undone. */
  predicate Later(s: Limiter, t: Limiter) {
    && s.now <= t.now && s.generation <= t.generation && |s.hits| <= |t.hits| && t.hits[..|s.hits|] == s.hits
    && |s.expiries| <= |t.expiries| && forall g :: 0 <= g < |s.expiries| ==> s.expiries[g] <= t.expiries[g]
  }

  /** The window of generation `g` was given its expiry. */
  predicate HasExpiry(s: Limiter, g: nat) { 0 < g <= |s.expiries| && s.expiries[g - 1] == 1 }

  lemma HitStays(s: Limiter, t: Limiter, i: nat)
    requires Later(s, t) && i < |s.hits|
    ensures i < |t.hits| && t.hits[i] == s.hits[i]
  {
    assert t.hits[..|s.hits|][i] == s.hits[i];
  }

  lemma ExpiryStays(windowMs: nat, s: Limiter, t: Limiter, g: nat)
    requires HasExpiry(s, g) && Later(s, t) && WindowInv(windowMs, t)
    ensures HasExpiry(t, g)
  {
    assert t.expiries[g - 1] >= s.expiries[g - 1];
  }

  class RedisRateLimitStore {
    const redis: RateLimitRedis

    constructor (redis: RateLimitRedis)
      ensures this.redis == redis
    {
      this.redis := redis;
    }

    /**
     `increment`: the answer is the count of a hit made during this call, a call that opened a window
     has given it its one expiry, and the reset time lies within one window from now.
     */
    method Increment(c: CallId) returns (totalHits: nat, resetTime: Time)
      requires Inv(redis.windowMs, redis.state) && c !in redis.state.calls
      modifies redis
      ensures Inv(redis.windowMs, redis.state) && Later(old(redis.state), redis.state)
      ensures c !in redis.state.calls
      ensures exists i :: |old(redis.state.hits)| <= i < |redis.state.hits|
                && redis.state.hits[i].call == c && redis.state.hits[i].count == totalHits
                && (totalHits == 1 ==> HasExpiry(redis.state, redis.state.hits[i].generation))
      ensures redis.state.now <= resetTime <= redis.state.now + redis.windowMs
      ensures resetTime == if ExpiresAhead(redis.state) then redis.state.counter.value.expiry.value
                           else redis.state.now + redis.windowMs
    {
      redis.Others(c);
      totalHits := redis.Incr(c);
      ghost var counted := redis.state;
      resetTime := FinishIncrement(c, totalHits == 1);
      HitStays(counted, redis.state, |counted.hits| - 1);
    }

    /** The awaits after INCR: set the expiry if this call opened the window, then read the TTL. */
    method FinishIncrement(c: CallId, opener: bool) returns (resetTime: Time)
      requires Inv(redis.windowMs, redis.state) && c in redis.state.calls
      requires redis.state.calls[c] == if opener then SetExpiry else ReadTtl
      modifies redis
      ensures opener ==> HasExpiry(redis.state, old(redis.state.generation))
      ensures Inv(redis.windowMs, redis.state) && Later(old(redis.state), redis.state)
      ensures c !in redis.state.calls
      ensures redis.state.now <= resetTime <= redis.state.now + redis.windowMs
      ensures resetTime == if ExpiresAhead(redis.state) then redis.state.counter.value.expiry.value
                           else redis.state.now + redis.windowMs
    {
      redis.Others(c);
      ghost var withExpiry := redis.state;
      if opener {
        OpenWindow(c);
        withExpiry := redis.state;
        redis.Others(c);
      }
      var ttl := redis.PTtl(c);
      if opener { ExpiryStays(redis.windowMs, withExpiry, redis.state, old(redis.state.generation)); }
      resetTime := redis.state.now + (if ttl > 0 then ttl else redis.windowMs);
    }

    /** The one PEXPIRE of a window. */
    method OpenWindow(c: CallId)
      requires Inv(redis.windowMs, redis.state) && c in redis.state.calls && redis.state.calls[c] == SetExpiry
      modifies redis
      ensures Inv(redis.windowMs, redis.state) && Later(old(redis.state), redis.state)
      ensures redis.state.calls == old(redis.state.calls)[c := ReadTtl]
      ensures old(redis.state.counter).Some?
      ensures redis.state.counter == Some(Counter(old(redis.state.counter).value.count,
                                                  Some(old(redis.state.now) + redis.windowMs)))
      ensures forall g: nat :: 0 < g <= old(redis.state.generation) ==> HasExpiry(redis.state, g)
    {
      ExpiryIsOneWindowAhead(redis.windowMs, redis.state, c);
      redis.PExpire(c);
      forall g: nat | 0 < g <= redis.state.generation ensures HasExpiry(redis.state, g) {
        assert redis.state.counter.value.expiry.Some? && redis.state.expiries[g - 1] == 1;
      }
    }
  }
}
