/**
 The idempotency middleware (backend/src/middleware/idempotency.ts) as a step system.

 A request has two atomic steps on the server: the lookup, which runs up to the point where the
 handler is started, and the answer, when the handler calls `res.json`. Nothing is reserved in
 between, so steps of different requests interleave freely. `requests` records every request the
 server has seen and how far it is; the program itself keeps only `store`.
 */
module Idempotency {
  import opened Wrappers
  import opened Counting

  type RequestId = nat

  /**
   A request as the server sees it. `guarded` says whether the route has the middleware in front.
   `key` is the `Idempotency-Key` header.
   */
  datatype Request = Request(guarded: bool, key: Option<string>, verb: string, target: Target, body: string)

  /** A URL path as the server takes it apart: the mount of the router, and what `req.path` holds below it. */
  datatype Target = Target(mount: string, path: string)

  /** What `hashRequest` hashes. SHA-256 is taken to be injective, so the payload stands for its hash. */
  datatype Fingerprint = Fingerprint(verb: string, path: string, body: string)

  function HashRequest(r: Request): Fingerprint {
    Fingerprint(r.verb, r.target.path, r.body)
  }

  datatype StoredResponse = StoredResponse(statusCode: nat, body: string, requestHash: Fingerprint)

  predicate Success(statusCode: nat) { 200 <= statusCode < 300 }

  /** The schema of the header: a string of 8 to 200 characters. */
  predicate ValidKey(key: Option<string>) {
    key.Some? && 8 <= |key.value| <= 200
  }

  /** The key the middleware files a request under, if it files it at all. */
  function KeyOf(r: Request): Option<string> {
    if r.guarded && ValidKey(r.key) then r.key else None
  }

  datatype Decision = Reject(statusCode: nat) | Replay(statusCode: nat, body: string) | RunHandler

  const BAD_REQUEST: nat := 400
  const CONFLICT: nat := 409

  function Decide(store: map<string, StoredResponse>, r: Request): Decision {
    if !r.guarded then RunHandler
    else if KeyOf(r).None? then Reject(BAD_REQUEST)
    else if KeyOf(r).value in store then
      var existing := store[KeyOf(r).value];
      if existing.requestHash != HashRequest(r) then Reject(CONFLICT)
      else Replay(existing.statusCode, existing.body)
    else RunHandler
  }

  /** The write made when the handler answers: only 2xx answers of guarded requests are kept. */
  function Remember(store: map<string, StoredResponse>, r: Request, statusCode: nat, body: string)
    : map<string, StoredResponse>
  {
    if KeyOf(r).Some? && Success(statusCode)
    then store[KeyOf(r).value := StoredResponse(statusCode, body, HashRequest(r))]
    else store
  }

  /**
   What a later request with the same key is told about a remembered answer: the answer itself exactly when
   method, path below the mount and body agree, whatever the mount, and a conflict otherwise.
   */
  lemma ReplayedExactlyWhen(store: map<string, StoredResponse>, r: Request, statusCode: nat, body: string,
                            other: Request)
    requires KeyOf(r).Some? && KeyOf(other) == KeyOf(r) && Success(statusCode)
    ensures Decide(Remember(store, r, statusCode, body), other)
            == if other.verb == r.verb && other.target.path == r.target.path && other.body == r.body
               then Replay(statusCode, body) else Reject(CONFLICT)
  {}

  /** Where a request is: its handler is at work, or it was answered, with (`ran`) or without its handler. */
  datatype Phase =
    | Handling(request: Request)
    | Answered(request: Request, statusCode: nat, body: string, ran: bool)

  datatype Server = Server(store: map<string, StoredResponse>, requests: map<RequestId, Phase>)

  const START: Server := Server(map[], map[])

  datatype Event =
    | Lookup(id: RequestId, request: Request)
    | Finish(id: RequestId, statusCode: nat, body: string)

  /** Request ids are fresh, and a handler answers only while it runs. */
  predicate Enabled(s: Server, e: Event) {
    match e
    case Lookup(id, _) => id !in s.requests
    case Finish(id, _, _) => id in s.requests && s.requests[id].Handling?
  }

  function PhaseAfterLookup(store: map<string, StoredResponse>, r: Request): Phase {
    match Decide(store, r)
    case Reject(code) => Answered(r, code, "", false)
    case Replay(code, body) => Answered(r, code, body, false)
    case RunHandler => Handling(r)
  }

  function Apply(s: Server, e: Event): Server
    requires Enabled(s, e)
  {
    match e
    case Lookup(id, r) => s.(requests := s.requests[id := PhaseAfterLookup(s.store, r)])
    case Finish(id, code, body) =>
      var r := s.requests[id].request;
      Server(Remember(s.store, r, code, body), s.requests[id := Answered(r, code, body, true)])
  }

  ghost predicate Reaches(s: Server, events: seq<Event>, t: Server)
    decreases |events|
  {
    if events == [] then s == t
    else Enabled(s, events[0]) && Reaches(Apply(s, events[0]), events[1..], t)
  }

  // ---------- What every request is told ----------

  /** The header as the middleware asks for it. */
  predicate Carries(r: Request, k: string) { r.key == Some(k) && 8 <= |k| <= 200 }

  /** Two requests one answer fits. */
  predicate Alike(r: Request, q: Request) {
    r.verb == q.verb && r.target.path == q.target.path && r.body == q.body
  }

  /** The handler of guarded request `id` ran under the key `k` and ended with 2xx. */
  ghost predicate CompletedUnder(s: Server, k: string, id: RequestId) {
    && id in s.requests && s.requests[id].Answered? && s.requests[id].ran
    && s.requests[id].request.guarded && Carries(s.requests[id].request, k)
    && 200 <= s.requests[id].statusCode < 300
  }

  /** The answer given without a handler, when request `id` has completed under the key. */
  ghost function Retold(s: Server, id: RequestId, r: Request): Phase
    requires id in s.requests && s.requests[id].Answered?
  {
    if Alike(r, s.requests[id].request) then Answered(r, s.requests[id].statusCode, s.requests[id].body, false)
    else Answered(r, 409, "", false)
  }

  /**
   A request without the middleware always gets its handler; a guarded one without a key of 8 to 200
   characters is told 400; any other gets its handler, or what some completed request under its key says.
   */
  ghost predicate ToldRightly(s: Server, p: Phase) {
    var r := p.request;
    if !r.guarded then p.Handling? || p.ran
    else if r.key.None? || !(8 <= |r.key.value| <= 200) then p == Answered(r, 400, "", false)
    else p.Handling? || p.ran || exists j :: CompletedUnder(s, r.key.value, j) && p == Retold(s, j, r)
  }

  ghost predicate StoredFrom(s: Server, k: string, j: RequestId) {
    && CompletedUnder(s, k, j) && k in s.store
    && s.store[k].statusCode == s.requests[j].statusCode && s.store[k].body == s.requests[j].body
    && forall r :: HashRequest(r) == s.store[k].requestHash <==> Alike(r, s.requests[j].request)
  }

  /** The store holds what was completed, and nothing else. */
  ghost predicate StoreAccounted(s: Server) {
    && (forall k :: k in s.store ==> exists j :: StoredFrom(s, k, j))
    && (forall k, j :: CompletedUnder(s, k, j) ==> k in s.store)
  }

  ghost predicate Accounted(s: Server) {
    StoreAccounted(s) && forall id :: id in s.requests ==> ToldRightly(s, s.requests[id])
  }

  /** A completed request stays as it is. */
  ghost predicate Kept(s: Server, t: Server) {
    forall k, j :: CompletedUnder(s, k, j) ==> CompletedUnder(t, k, j) && t.requests[j] == s.requests[j]
  }

  lemma StepKeepsCompleted(s: Server, e: Event)
    requires Enabled(s, e)
    ensures Kept(s, Apply(s, e))
  {}

  lemma StepKeepsStore(s: Server, e: Event)
    requires StoreAccounted(s) && Enabled(s, e)
    ensures StoreAccounted(Apply(s, e))
  {
    var t := Apply(s, e);
    StepKeepsCompleted(s, e);
    forall k | k in t.store ensures exists j :: StoredFrom(t, k, j) {
      if k in s.store && t.store[k] == s.store[k] {
        var j :| StoredFrom(s, k, j);
        assert StoredFrom(t, k, j);
      } else {
        assert StoredFrom(t, k, e.id);
      }
    }
    forall k, j | CompletedUnder(t, k, j) ensures k in t.store {
      assert j != e.id ==> CompletedUnder(s, k, j);
    }
  }

  lemma StepTellsRightly(s: Server, e: Event, id: RequestId)
    requires Accounted(s) && Enabled(s, e) && id in Apply(s, e).requests
    ensures ToldRightly(Apply(s, e), Apply(s, e).requests[id])
  {
    var t := Apply(s, e);
    StepKeepsCompleted(s, e);
    if id != e.id {
      StaysTold(s, t, s.requests[id]);
    } else if e.Lookup? && KeyOf(e.request).Some? && KeyOf(e.request).value in s.store {
      var k := e.request.key.value;
      var j :| StoredFrom(s, k, j);
      assert CompletedUnder(t, k, j) && t.requests[id] == Retold(t, j, e.request);
    } else if e.Finish? {
      assert s.requests[id].Handling? && ToldRightly(s, s.requests[id]);
    }
  }

  lemma StepKeepsAccounts(s: Server, e: Event)
    requires Accounted(s) && Enabled(s, e)
    ensures Accounted(Apply(s, e))
  {
    StepKeepsStore(s, e);
    forall id | id in Apply(s, e).requests ensures ToldRightly(Apply(s, e), Apply(s, e).requests[id]) {
      StepTellsRightly(s, e, id);
    }
  }

  lemma StaysTold(s: Server, t: Server, p: Phase)
    requires ToldRightly(s, p) && Kept(s, t)
    ensures ToldRightly(t, p)
  {
    var r := p.request;
    if r.guarded && r.key.Some? && 8 <= |r.key.value| <= 200 && p.Answered? && !p.ran {
      var j :| CompletedUnder(s, r.key.value, j) && p == Retold(s, j, r);
      assert CompletedUnder(t, r.key.value, j) && p == Retold(t, j, r);
    }
  }

  lemma {:induction false} ReachKeepsAccounts(s: Server, events: seq<Event>, t: Server)
    requires Accounted(s) && Reaches(s, events, t)
    ensures Accounted(t)
    decreases |events|
  {
    if events != [] {
      StepKeepsAccounts(s, events[0]);
      ReachKeepsAccounts(Apply(s, events[0]), events[1..], t);
    }
  }

  /** Over every run: the header check, the replay and the conflict, for every request ever taken in. */
  lemma EveryRequestIsToldRightly(events: seq<Event>, t: Server, id: RequestId)
    requires Reaches(START, events, t) && id in t.requests
    ensures ToldRightly(t, t.requests[id])
  {
    ReachKeepsAccounts(START, events, t);
  }

  /** A money handler runs only for a key of 8 to 200 characters; any other guarded request is told 400. */
  lemma HandlerNeedsAKey(events: seq<Event>, t: Server, id: RequestId)
    requires Reaches(START, events, t) && id in t.requests && t.requests[id].request.guarded
    ensures t.requests[id].Handling? || t.requests[id].ran ==>
              t.requests[id].request.key.Some? && 8 <= |t.requests[id].request.key.value| <= 200
    ensures (t.requests[id].request.key.Some? ==> !(8 <= |t.requests[id].request.key.value| <= 200)) ==>
              t.requests[id] == Answered(t.requests[id].request, 400, "", false)
  {
    EveryRequestIsToldRightly(events, t, id);
  }

  /** A key is remembered exactly when the handler of a guarded request that carries it has ended with 2xx. */
  lemma RememberedExactlyWhen(events: seq<Event>, t: Server, k: string)
    requires Reaches(START, events, t)
    ensures k in t.store <==> exists j :: CompletedUnder(t, k, j)
  {
    ReachKeepsAccounts(START, events, t);
    if k in t.store {
      var j :| StoredFrom(t, k, j);
    }
  }

  /**
   A request that is taken in starts its handler exactly when it is not guarded, or carries a valid key
   under which no handler has completed; taking it in writes nothing.
   */
  lemma HandlerStartsExactlyWhen(events: seq<Event>, s: Server, id: RequestId, r: Request)
    requires Reaches(START, events, s) && id !in s.requests
    ensures var t := Apply(s, Lookup(id, r));
            && t.store == s.store
            && (t.requests[id].Handling? <==>
                  || !r.guarded
                  || (r.key.Some? && 8 <= |r.key.value| <= 200 && !exists j :: CompletedUnder(s, r.key.value, j)))
  {
    if r.key.Some? { RememberedExactlyWhen(events, s, r.key.value); }
  }

  /** What a client is told after its handler ran is what the handler answered, for the request it sent. */
  lemma {:induction false} AnswersComeFromHandlers(s: Server, events: seq<Event>, t: Server, id: RequestId)
    requires Reaches(s, events, t) && id in t.requests
    ensures Lookup(id, t.requests[id].request) in events
            || (id in s.requests && s.requests[id].request == t.requests[id].request)
    ensures t.requests[id].Answered? && t.requests[id].ran ==>
              || Finish(id, t.requests[id].statusCode, t.requests[id].body) in events
              || (id in s.requests && s.requests[id] == t.requests[id])
    decreases |events|
  {
    if events != [] {
      AnswersComeFromHandlers(Apply(s, events[0]), events[1..], t, id);
      assert forall e :: e in events[1..] ==> e in events;
      assert events[0] in events;
    }
  }

  // ---------- Counting handler runs ----------

  predicate Seen(s: Server, k: string, id: RequestId) {
    id in s.requests && KeyOf(s.requests[id].request) == Some(k)
  }

  predicate IsRunning(s: Server, k: string, id: RequestId) {
    Seen(s, k, id) && s.requests[id].Handling?
  }

  /** A 2xx answer was sent to request `id`. */
  ghost predicate SuccessSent(s: Server, k: string, id: RequestId) {
    Seen(s, k, id) && s.requests[id].Answered? && Success(s.requests[id].statusCode)
  }

  /** The handler ran for request `id` and ended with 2xx. */
  ghost predicate IsCompleted(s: Server, k: string, id: RequestId) {
    SuccessSent(s, k, id) && s.requests[id].ran
  }

  ghost function Completions(s: Server, k: string): set<RequestId> {
    set id | id in s.requests && IsCompleted(s, k, id)
  }

  ghost function LookedUp(s: Server, k: string): set<RequestId> {
    set id | id in s.requests && Seen(s, k, id)
  }

  /** What every interleaving keeps: a 2xx answer leaves a record, and records are 2xx answers. */
  ghost predicate Inv(s: Server, k: string) {
    && (forall id :: SuccessSent(s, k, id) ==> k in s.store)
    && (k in s.store ==> Success(s.store[k].statusCode))
  }

  lemma StepKeepsInv(s: Server, e: Event, k: string)
    requires Inv(s, k) && Enabled(s, e)
    ensures Inv(Apply(s, e), k)
  {
    forall id | SuccessSent(Apply(s, e), k, id) ensures k in Apply(s, e).store {
      assert id != e.id ==> SuccessSent(s, k, id);
    }
  }

  lemma {:induction false} ReachKeepsInv(s: Server, events: seq<Event>, t: Server, k: string)
    requires Inv(s, k) && Reaches(s, events, t)
    ensures Inv(t, k)
    decreases |events|
  {
    if events != [] {
      StepKeepsInv(s, events[0], k);
      ReachKeepsInv(Apply(s, events[0]), events[1..], t, k);
    }
  }

  // ---------- Any interleaving ----------

  /** A handler run for `k` that is going on or has ended with 2xx. */
  ghost predicate Active(s: Server, k: string, id: RequestId) {
    IsRunning(s, k, id) || IsCompleted(s, k, id)
  }

  /** From a stored key on, no step begins another handler run for it. */
  lemma StoredKeyBlocks(s: Server, e: Event, k: string, id: RequestId)
    requires Inv(s, k) && Enabled(s, e) && k in s.store
    ensures k in Apply(s, e).store
    ensures Active(Apply(s, e), k, id) ==> Active(s, k, id)
  {}

  lemma {:induction false} StoredKeyStaysBlocked(s: Server, events: seq<Event>, t: Server, k: string, id: RequestId)
    requires Inv(s, k) && Reaches(s, events, t) && k in s.store
    ensures k in t.store
    ensures Active(t, k, id) ==> Active(s, k, id)
    decreases |events|
  {
    if events != [] {
      StepKeepsInv(s, events[0], k);
      StoredKeyBlocks(s, events[0], k, id);
      StoredKeyStaysBlocked(Apply(s, events[0]), events[1..], t, k, id);
    }
  }

  /**
   Once any 2xx answer for a key has been sent, a request that looks the key up later never starts
   the handler, whatever else is still running.
   */
  lemma NoHandlerAfterSuccess(before: seq<Event>, s: Server, after: seq<Event>, t: Server,
                              k: string, sent: RequestId, late: Request)
    requires Reaches(START, before, s) && Reaches(s, after, t)
    requires SuccessSent(s, k, sent) && KeyOf(late) == Some(k)
    ensures !Decide(t.store, late).RunHandler?
  {
    ReachKeepsInv(START, before, s, k);
    StoredKeyStaysBlocked(s, after, t, k, sent);
  }

  /**
   However requests interleave, the 2xx handler runs for a key number at most the requests that
   looked it up before the first of them was stored.
   */
  lemma CompletionsBoundedByEarlyLookups(before: seq<Event>, s: Server, after: seq<Event>, t: Server, k: string)
    requires Reaches(START, before, s) && Reaches(s, after, t)
    requires k in s.store
    ensures |Completions(t, k)| <= |LookedUp(s, k)|
  {
    ReachKeepsInv(START, before, s, k);
    forall id | id in Completions(t, k) ensures id in LookedUp(s, k) {
      StoredKeyStaysBlocked(s, after, t, k, id);
    }
    SubsetCard(Completions(t, k), LookedUp(s, k));
  }

  /** The bound is needed: two overlapping requests with one key both complete. */
  lemma OverlapCompletesTwice(k: string, r: Request)
    requires KeyOf(r) == Some(k)
    ensures exists t ::
              && Reaches(START, [Lookup(0, r), Lookup(1, r), Finish(0, 200, "a"), Finish(1, 200, "b")], t)
              && Completions(t, k) == {0, 1}
  {
    var a, b, c, d := Lookup(0, r), Lookup(1, r), Finish(0, 200, "a"), Finish(1, 200, "b");
    var s1 := Apply(START, a);
    var s2 := Apply(s1, b);
    var s3 := Apply(s2, c);
    var t := Apply(s3, d);
    assert Reaches(s3, [d], t) by { assert [d][1..] == []; }
    assert Reaches(s2, [c, d], t) by { assert [c, d][1..] == [d]; }
    assert Reaches(s1, [b, c, d], t) by { assert [b, c, d][1..] == [c, d]; }
    assert Reaches(START, [a, b, c, d], t) by { assert [a, b, c, d][1..] == [b, c, d]; }
    assert Completions(t, k) == {0, 1};
  }

  // ---------- Without overlap ----------

  predicate Busy(s: Server, k: string) {
    exists id :: id in s.requests && IsRunning(s, k, id)
  }

  /** The premise: a key is looked up only while no other request with that key is being handled. */
  predicate Alone(s: Server, e: Event, k: string) {
    e.Lookup? && KeyOf(e.request) == Some(k) ==> !Busy(s, k)
  }

  ghost predicate ReachesAlone(s: Server, events: seq<Event>, t: Server, k: string)
    decreases |events|
  {
    if events == [] then s == t
    else Enabled(s, events[0]) && Alone(s, events[0], k) && ReachesAlone(Apply(s, events[0]), events[1..], t, k)
  }

  /** A 2xx answer that repeats what the store holds. */
  predicate Repeats(stored: StoredResponse, p: Phase)
    requires p.Answered?
  {
    p.body == stored.body && p.statusCode == stored.statusCode && HashRequest(p.request) == stored.requestHash
  }

  /** One handler run at a time, at most one completion, and every 2xx answer repeats it. */
  ghost predicate OnceInv(s: Server, k: string) {
    && (k in s.store ==> Success(s.store[k].statusCode) && exists i :: IsCompleted(s, k, i))
    && (forall i, j :: IsRunning(s, k, i) && IsRunning(s, k, j) ==> i == j)
    && (forall i :: IsRunning(s, k, i) ==> k !in s.store)
    && (forall i, j :: IsCompleted(s, k, i) && IsCompleted(s, k, j) ==> i == j)
    && (forall i :: SuccessSent(s, k, i) ==> k in s.store && Repeats(s.store[k], s.requests[i]))
  }

  lemma StepKeepsOnce(s: Server, e: Event, k: string)
    requires OnceInv(s, k) && Enabled(s, e) && Alone(s, e, k)
    ensures OnceInv(Apply(s, e), k)
    ensures k in s.store ==> k in Apply(s, e).store && Apply(s, e).store[k] == s.store[k]
  {
    var t := Apply(s, e);
    assert Seen(t, k, e.id) && e.Finish? ==> Seen(s, k, e.id) && IsRunning(s, k, e.id);
    forall i | i != e.id
      ensures IsRunning(t, k, i) <==> IsRunning(s, k, i)
      ensures SuccessSent(t, k, i) <==> SuccessSent(s, k, i)
      ensures IsCompleted(t, k, i) <==> IsCompleted(s, k, i)
    {}
    if k in s.store {
      var i :| IsCompleted(s, k, i);
      assert IsCompleted(t, k, i);
    } else if k in t.store {
      assert IsCompleted(t, k, e.id);
    }
  }

  lemma {:induction false} ReachKeepsOnce(s: Server, events: seq<Event>, t: Server, k: string)
    requires OnceInv(s, k) && ReachesAlone(s, events, t, k)
    ensures OnceInv(t, k)
    decreases |events|
  {
    if events != [] {
      StepKeepsOnce(s, events[0], k);
      ReachKeepsOnce(Apply(s, events[0]), events[1..], t, k);
    }
  }

  /**
   If requests with one key do not overlap, its handler completes at most once; exactly once as soon
   as any 2xx answer was sent; and all 2xx answers carry the same status and body.
   */
  lemma AtMostOnceWithoutOverlap(events: seq<Event>, t: Server, k: string)
    requires ReachesAlone(START, events, t, k)
    ensures AtMostOnce(t, k)
  {
    ReachKeepsOnce(START, events, t, k);
    OnceMeansAtMostOnce(t, k);
  }

  ghost predicate AtMostOnce(s: Server, k: string) {
    && |Completions(s, k)| <= 1
    && (forall id :: SuccessSent(s, k, id) ==> |Completions(s, k)| == 1)
    && (forall i, j :: SuccessSent(s, k, i) && SuccessSent(s, k, j) ==>
          s.requests[i].statusCode == s.requests[j].statusCode && s.requests[i].body == s.requests[j].body)
  }

  lemma OnceMeansAtMostOnce(s: Server, k: string)
    requires OnceInv(s, k)
    ensures AtMostOnce(s, k)
  {
    AtMostOneMember(Completions(s, k));
    if k in s.store {
      var i :| IsCompleted(s, k, i);
      assert i in Completions(s, k);
    }
  }

  /** From here on, as long as lookups of `k` do not overlap, its handler completes at most once. */
  ghost predicate OnceFrom(s: Server, k: string) {
    forall events, t :: ReachesAlone(s, events, t, k) ==> |Completions(t, k)| <= 1
  }

  /**
   The exact condition. In any state that kept to the premise so far, taking in a request with key `k`
   preserves at-most-once exactly when no request with that key is being handled.
   */
  lemma LookupIsSafeExactlyWhen(s: Server, k: string, id: RequestId, r: Request)
    requires OnceInv(s, k) && id !in s.requests && KeyOf(r) == Some(k)
    ensures !Busy(s, k) <==> OnceFrom(Apply(s, Lookup(id, r)), k)
  {
    var u := Apply(s, Lookup(id, r));
    if Busy(s, k) {
      var j :| j in s.requests && IsRunning(s, k, j);
      var events, t := BothFinish(s, k, id, r, j);
      assert ReachesAlone(u, events, t, k) && |Completions(t, k)| > 1;
    } else {
      StepKeepsOnce(s, Lookup(id, r), k);
      forall events, t | ReachesAlone(u, events, t, k) ensures |Completions(t, k)| <= 1 {
        ReachKeepsOnce(u, events, t, k);
        OnceMeansAtMostOnce(t, k);
      }
    }
  }

  /** A lookup while request `j` is being handled can end in two completions, whatever both requests are. */
  lemma BothFinish(s: Server, k: string, id: RequestId, r: Request, j: RequestId)
    returns (events: seq<Event>, t: Server)
    requires id !in s.requests && KeyOf(r) == Some(k) && k !in s.store && IsRunning(s, k, j)
    ensures ReachesAlone(Apply(s, Lookup(id, r)), events, t, k)
    ensures {j, id} <= Completions(t, k) && |Completions(t, k)| >= 2
  {
    var first, second := Finish(j, 200, "a"), Finish(id, 200, "b");
    var u := Apply(s, Lookup(id, r));
    var v := Apply(u, first);
    events, t := [first, second], Apply(v, second);
    assert ReachesAlone(v, [second], t, k) by { assert [second][1..] == []; }
    assert events[1..] == [second];
    SubsetCard({j, id}, Completions(t, k));
  }

  /**
   A key that was stored under one request refuses every different request for ever: after a lost
   answer on one route, the other route can only be told 409.
   */
  lemma OtherRequestsConflictForever(s: Server, events: seq<Event>, t: Server, k: string, other: Request)
    requires OnceInv(s, k) && ReachesAlone(s, events, t, k)
    requires k in s.store && KeyOf(other) == Some(k) && HashRequest(other) != s.store[k].requestHash
    ensures Decide(t.store, other) == Reject(CONFLICT)
  {
    StoredAloneIsFinal(s, events, t, k);
  }

  lemma {:induction false} StoredAloneIsFinal(s: Server, events: seq<Event>, t: Server, k: string)
    requires OnceInv(s, k) && ReachesAlone(s, events, t, k) && k in s.store
    ensures k in t.store && t.store[k] == s.store[k]
    decreases |events|
  {
    if events != [] {
      StepKeepsOnce(s, events[0], k);
      StoredAloneIsFinal(Apply(s, events[0]), events[1..], t, k);
    }
  }
}
