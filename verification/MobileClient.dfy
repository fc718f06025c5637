/**
 The server of `Idempotency` in the program's own form: the in-memory store and the middleware that
 reads it before the handler and writes it when the handler answers.
 */
module IdempotencyServer {
  import opened Wrappers
  import opened Idempotency

  class InMemoryIdempotencyStore {
    var entries: map<string, StoredResponse>

    constructor ()
      ensures entries == map[]
    {
      entries := map[];
    }

    method Get(key: string) returns (value: Option<StoredResponse>)
      ensures value == if key in entries then Some(entries[key]) else None
    {
      value := if key in entries then Some(entries[key]) else None;
    }

    method Set(key: string, value: StoredResponse)
      modifies this
      ensures entries == old(entries)[key := value]
    {
      entries := entries[key := value];
    }
  }

  class IdempotentServer {
    const store: InMemoryIdempotencyStore
    var requests: map<RequestId, Phase>

    function Contents(): Server
      reads this, store
    {
      Server(store.entries, requests)
    }

    constructor ()
      ensures fresh(store) && Contents() == START
    {
      store := new InMemoryIdempotencyStore();
      requests := map[];
    }

    /**
     The middleware from the header check to `next()`. It awaits `store.get`, but the map is read when
     `get` is called and all that follows depends on that value and this request alone. Whatever other
     requests do before the await returns could as well come later, so this is one step.
     */
    method OnRequest(id: RequestId, r: Request)
      requires Enabled(Contents(), Lookup(id, r))
      modifies this
      ensures Contents() == Apply(old(Contents()), Lookup(id, r))
    {
      var phase := Handling(r);
      if r.guarded {
        if !ValidKey(r.key) {
          phase := Answered(r, BAD_REQUEST, "", false);
        } else {
          var existing := store.Get(r.key.value);
          if existing.Some? {
            if existing.value.requestHash != HashRequest(r) {
              phase := Answered(r, CONFLICT, "", false);
            } else {
              phase := Answered(r, existing.value.statusCode, existing.value.body, false);
            }
          }
        }
      }
      requests := requests[id := phase];
    }

    /** The replaced `res.json`: remember a 2xx answer, then send it. */
    method OnJson(id: RequestId, statusCode: nat, body: string)
      requires Enabled(Contents(), Finish(id, statusCode, body))
      modifies this, store
      ensures Contents() == Apply(old(Contents()), Finish(id, statusCode, body))
    {
      var r := requests[id].request;
      if r.guarded && ValidKey(r.key) && 200 <= statusCode < 300 {
        store.Set(r.key.value, StoredResponse(statusCode, body, HashRequest(r)));
      }
      requests := requests[id := Answered(r, statusCode, body, true)];
    }
  }
}

/**
 The mobile client against that server over a network that loses, delays and reorders messages:
 `apiRequest` (app/src/api/http.ts), the key hook (app/src/lib/idempotency.ts) and the escrow action
 (app/src/features/escrow/useEscrowAction.ts).

 Whatever the environment decides is a nondeterministic choice: which requests arrive and when, what
 other clients send, how handlers answer, which answers get back, what the wallet signs.
 */
module MobileClient {
  import opened Wrappers
  import opened Counting
  import opened Idempotency
  import opened IdempotencyServer

  datatype Failure = CallerAborted | DeadlinePassed | Unreachable

  datatype FetchOutcome = Response(statusCode: nat, body: string) | Failed(cause: Failure)

  class Network {
    const server: IdempotentServer
    /** Whether the premise of at-most-once holds: a key is not looked up while it is being handled. */
    const alone: bool
    /** Requests that were sent and have not reached the server; they may still arrive, or never. */
    var wire: map<RequestId, Request>
    var nextId: RequestId
    /** The keys of this client, which no other client can know. */
    var own: set<string>
    /** Everything this client sent, in order. */
    ghost var outbox: seq<Request>

    ghost predicate Valid()
      reads this`wire, this`nextId, server, server.store
    {
      && (alone ==> forall k :: OnceInv(server.Contents(), k))
      && (forall id :: id in wire ==> id < nextId && id !in server.requests)
      && (forall id :: id in server.requests ==> id < nextId)
    }

    constructor (alone: bool)
      ensures Valid() && fresh(server) && fresh(server.store) && outbox == [] && own == {}
      ensures this.alone == alone && server.Contents() == START
    {
      server := new IdempotentServer();
      this.alone, wire, nextId, own, outbox := alone, map[], 0, {}, [];
    }

    /** The requests with key `k` that were sent so far, by anyone. */
    ghost function Sent(k: string): set<RequestId>
      reads this`wire, server, server.store
    {
      Carriers(wire, server.Contents(), k)
    }

    /** A key this client has just minted. */
    method Claim(k: string)
      requires Valid()
      modifies this`own
      ensures Valid() && own == old(own) + {k}
    {
      own := own + {k};
    }

    /** Any number of server steps, with requests of this and of any other client. */
    method Environment()
      requires Valid()
      modifies this, server, server.store
      ensures Valid() && outbox == old(outbox) && own == old(own)
      ensures Grows(old(server.Contents()), server.Contents())
      ensures Allocated(old(wire), old(nextId), wire, nextId, server.Contents())
      ensures forall k :: k in own ==> Sent(k) <= old(Sent(k))
    {
      var steps: nat := *;
      while steps > 0
        invariant Valid() && outbox == old(outbox) && own == old(own)
        invariant Grows(old(server.Contents()), server.Contents())
        invariant Allocated(old(wire), old(nextId), wire, nextId, server.Contents())
        invariant forall k :: k in own ==> Sent(k) <= old(Sent(k))
      {
        steps := steps - 1;
        var arrives: bool := *;
        if arrives {
          Arrival();
        } else {
          HandlerAnswer();
        }
      }
    }

    method Arrival()
      requires Valid()
      modifies this, server
      ensures Valid() && outbox == old(outbox) && own == old(own)
      ensures Grows(old(server.Contents()), server.Contents())
      ensures Allocated(old(wire), old(nextId), wire, nextId, server.Contents())
      ensures forall k :: k in own ==> Sent(k) <= old(Sent(k))
    {
      var id: RequestId, r: Request := *, *;
      if id in wire {
        r := wire[id];
      } else {
        id := nextId;
        if KeyOf(r).Some? && KeyOf(r).value in own { return; }
      }
      if alone && KeyOf(r).Some? && Busy(server.Contents(), KeyOf(r).value) {
        return;
      }
      ghost var before := server.Contents();
      if alone {
        forall k { StepKeepsOnce(before, Lookup(id, r), k); }
      }
      server.OnRequest(id, r);
      forall k | k in own ensures Carriers(wire - {id}, server.Contents(), k) <= Carriers(wire, before, k) {
        TakenIn(wire, before, id, r, k);
      }
      nextId := if id == nextId then nextId + 1 else nextId;
      wire := wire - {id};
    }

    method HandlerAnswer()
      requires Valid()
      modifies server, server.store
      ensures Valid()
      ensures Grows(old(server.Contents()), server.Contents())
      ensures server.requests.Keys == old(server.requests.Keys)
      ensures forall k :: Sent(k) == old(Sent(k))
    {
      var id: RequestId, statusCode: nat, body: string := *, *, *;
      if id in server.requests && server.requests[id].Handling? {
        ghost var before := server.Contents();
        if alone {
          forall k { StepKeepsOnce(before, Finish(id, statusCode, body), k); }
        }
        server.OnJson(id, statusCode, body);
      }
    }

    /** One `fetch`: the request may be lost, handled late, or answered; the answer may be lost too. */
    method Fetch(r: Request) returns (outcome: FetchOutcome)
      requires Valid()
      modifies this, server, server.store
      ensures Valid() && outbox == old(outbox) + [r] && own == old(own)
      ensures Grows(old(server.Contents()), server.Contents())
      ensures outcome.Response? ==> Answers(server.Contents(), r, outcome.statusCode, outcome.body)
      ensures forall k :: k in own ==> |Sent(k)| <= |old(Sent(k))| + (if KeyOf(r) == Some(k) then 1 else 0)
    {
      var id := nextId;
      ghost var wire0, server0 := wire, server.Contents();
      nextId := nextId + 1;
      wire := wire[id := r];
      outbox := outbox + [r];
      Environment();
      forall k | k in own ensures |Sent(k)| <= |old(Sent(k))| + (if KeyOf(r) == Some(k) then 1 else 0) {
        OneMoreCarrier(wire0, server0, id, r, k);
        SubsetCard(Sent(k), Carriers(wire0[id := r], server0, k));
      }
      var delivered: bool := *;
      if delivered && id in server.requests && server.requests[id].Answered? {
        var p := server.requests[id];
        assert p.request == r;
        outcome := Response(p.statusCode, p.body);
      } else {
        var cause: Failure := *;
        outcome := Failed(cause);
      }
    }
  }

  /** The requests with key `k` on the wire or at the server. */
  ghost function Carriers(wire: map<RequestId, Request>, s: Server, k: string): set<RequestId> {
    (set id | id in wire && KeyOf(wire[id]) == Some(k)) + LookedUp(s, k)
  }

  lemma OneMoreCarrier(wire: map<RequestId, Request>, s: Server, id: RequestId, r: Request, k: string)
    requires id !in wire && id !in s.requests
    ensures |Carriers(wire[id := r], s, k)| <= |Carriers(wire, s, k)| + (if KeyOf(r) == Some(k) then 1 else 0)
  {
    var more := if KeyOf(r) == Some(k) then {id} else {};
    SubsetCard(Carriers(wire[id := r], s, k), Carriers(wire, s, k) + more);
  }

  /** A request that arrives from the wire, or does not carry the key, adds no carrier. */
  lemma TakenIn(wire: map<RequestId, Request>, s: Server, id: RequestId, r: Request, k: string)
    requires id !in s.requests && (id in wire ==> r == wire[id]) && (id !in wire ==> KeyOf(r) != Some(k))
    ensures Carriers(wire - {id}, Apply(s, Lookup(id, r)), k) <= Carriers(wire, s, k)
  {}

  /** Only a request that carries the key can complete its handler. */
  lemma CompletionsAreSent(wire: map<RequestId, Request>, s: Server, k: string)
    ensures |Completions(s, k)| <= |Carriers(wire, s, k)|
  {
    SubsetCard(Completions(s, k), Carriers(wire, s, k));
  }

  /** Answers stay answered, and requests keep their identity. */
  ghost predicate Grows(s: Server, t: Server) {
    forall id :: id in s.requests ==>
      && id in t.requests && t.requests[id].request == s.requests[id].request
      && (s.requests[id].Answered? ==> t.requests[id] == s.requests[id])
  }

  /** A request on the wire stays on it or reaches the server under its own id. */
  ghost predicate Allocated(wire: map<RequestId, Request>, nextId: RequestId,
                            wire': map<RequestId, Request>, nextId': RequestId, t: Server) {
    && nextId <= nextId'
    && (forall id :: id in wire ==>
          (id in wire' && wire'[id] == wire[id]) || (id in t.requests && t.requests[id].request == wire[id]))
  }

  /** The server sent this answer to a request equal to `r`. */
  ghost predicate Answers(s: Server, r: Request, statusCode: nat, body: string) {
    exists id :: id in s.requests && s.requests[id].Answered? && s.requests[id].request == r
      && s.requests[id].statusCode == statusCode && s.requests[id].body == body
  }

  // ---------- apiRequest ----------

  const MAX_ATTEMPTS: nat := 3

  /** What a caller passes; `guarded` says whether the route it names has the idempotency middleware. */
  datatype Options = Options(verb: string, target: Target, guarded: bool, key: Option<string>, body: string)

  /** `Ok` carries the parsed body, none for 204 and for an empty text. */
  datatype ApiResult =
    | Ok(value: Option<string>)
    | ClientError(statusCode: nat)
    | ClientFailure(cause: Failure)

  predicate IsRetryableStatus(statusCode: nat) {
    statusCode == 429 || statusCode == 502 || statusCode == 503 || statusCode == 504
  }

  function ToRequest(o: Options): Request {
    Request(o.guarded, if HasKey(o) then o.key else None, o.verb, o.target, o.body)
  }

  /** An empty key is not sent, and does not make a mutation repeatable. */
  predicate HasKey(o: Options) { o.key.Some? && o.key.value != "" }

  predicate Repeatable(o: Options) { o.verb == "GET" || HasKey(o) }

  function Parsed(statusCode: nat, body: string): Option<string> {
    if statusCode == 204 || body == "" then None else Some(body)
  }

  /** One call of `apiRequest`: its request, and what each copy of it met with. */
  datatype Leg = Leg(request: Request, outcomes: seq<FetchOutcome>)

  /** A fault a later attempt may survive: overload, a gateway in trouble, a deadline, no connection. */
  predicate Survivable(o: FetchOutcome) {
    match o
    case Response(code, _) => code == 429 || code == 502 || code == 503 || code == 504
    case Failed(cause) => cause == DeadlinePassed || cause == Unreachable
  }

  /** Copies are sent until one meets with something final, and at most three or, unless repeatable, one. */
  predicate ByPolicy(outcomes: seq<FetchOutcome>, repeatable: bool) {
    var limit := if repeatable then 3 else 1;
    && 1 <= |outcomes| <= limit
    && (forall i :: 0 <= i < |outcomes| - 1 ==> Survivable(outcomes[i]))
    && (|outcomes| < limit ==> !Survivable(outcomes[|outcomes| - 1]))
  }

  /** What the caller gets: the last outcome, with the text of a 2xx answer unless it is empty or a 204. */
  function ResultOf(outcomes: seq<FetchOutcome>): ApiResult
    requires outcomes != []
  {
    match outcomes[|outcomes| - 1]
    case Response(code, body) =>
      if !(200 <= code <= 299) then ClientError(code)
      else if code == 204 || |body| == 0 then Ok(None)
      else Ok(Some(body))
    case Failed(cause) => ClientFailure(cause)
  }

  /** What one call puts on the wire. */
  function Copies(leg: Leg): seq<Request> {
    seq(|leg.outcomes|, _ => leg.request)
  }

  /** Every answer a call met with was given by the server, to a request equal to its own. */
  ghost predicate Genuine(s: Server, leg: Leg) {
    forall i :: 0 <= i < |leg.outcomes| && leg.outcomes[i].Response? ==>
      Answers(s, leg.request, leg.outcomes[i].statusCode, leg.outcomes[i].body)
  }

  /** A 2xx answer to `r` whose body is `value`. */
  ghost predicate Succeeded(s: Server, r: Request, value: Option<string>) {
    exists id :: id in s.requests && s.requests[id].Answered? && s.requests[id].request == r
      && Success(s.requests[id].statusCode) && value == Parsed(s.requests[id].statusCode, s.requests[id].body)
  }

  /**
   The retry loop. It sends copies of one request as the policy says, and no other; the result is what the
   last of them met with. With a key that nobody else knows its handler completes at most once per copy,
   also when copies overlap.
   */
  method ApiRequest(net: Network, o: Options) returns (r: ApiResult, ghost leg: Leg, sessionExpired: bool)
    requires net.Valid()
    modifies net, net.server, net.server.store
    ensures net.Valid() && net.own == old(net.own)
    ensures Grows(old(net.server.Contents()), net.server.Contents())
    ensures leg.request == ToRequest(o)
            == Request(o.guarded, if o.key == Some("") then None else o.key, o.verb, o.target, o.body)
    ensures ByPolicy(leg.outcomes, o.verb == "GET" || (o.key.Some? && o.key.value != ""))
    ensures net.outbox == old(net.outbox) + Copies(leg)
    ensures r == ResultOf(leg.outcomes) && Genuine(net.server.Contents(), leg)
    ensures forall k :: k in net.own ==>
              |net.Sent(k)| <= |old(net.Sent(k))| + (if KeyOf(ToRequest(o)) == Some(k) then |leg.outcomes| else 0)
    ensures r.Ok? ==> Succeeded(net.server.Contents(), ToRequest(o), r.value)
    ensures sessionExpired <==> r == ClientError(401)
  {
    var maxAttempts := if Repeatable(o) then MAX_ATTEMPTS else 1;
    var lastError := ClientFailure(Unreachable);
    sessionExpired := false;
    leg := Leg(ToRequest(o), []);
    for attempt := 1 to maxAttempts + 1
      invariant attempt <= maxAttempts && |leg.outcomes| == attempt - 1 && !sessionExpired
      invariant leg.request == ToRequest(o) && forall i :: 0 <= i < |leg.outcomes| ==> Survivable(leg.outcomes[i])
      invariant net.Valid() && net.own == old(net.own)
      invariant Grows(old(net.server.Contents()), net.server.Contents()) && Genuine(net.server.Contents(), leg)
      invariant net.outbox == old(net.outbox) + Copies(leg)
      invariant forall k :: k in net.own ==>
                  |net.Sent(k)| <= |old(net.Sent(k))| + (if KeyOf(ToRequest(o)) == Some(k) then |leg.outcomes| else 0)
    {
      ghost var before := net.server.Contents();
      var outcome := net.Fetch(ToRequest(o));
      StaysGenuine(before, net.server.Contents(), leg);
      leg := OneMoreCopy(net.server.Contents(), leg, outcome);
      match outcome {
        case Response(statusCode, body) =>
          if 200 <= statusCode < 300 {
            return Ok(Parsed(statusCode, body)), leg, sessionExpired;
          }
          if statusCode == 401 { sessionExpired := true; }
          if IsRetryableStatus(statusCode) && attempt < maxAttempts {
            lastError := ClientError(statusCode);
          } else {
            return ClientError(statusCode), leg, sessionExpired;
          }
        case Failed(cause) =>
          lastError := ClientFailure(cause);
          if cause == CallerAborted || attempt == maxAttempts {
            return lastError, leg, sessionExpired;
          }
      }
    }
    r := lastError;
  }

  lemma StaysGenuine(s: Server, t: Server, leg: Leg)
    requires Genuine(s, leg) && Grows(s, t)
    ensures Genuine(t, leg)
  {
    forall i | 0 <= i < |leg.outcomes| && leg.outcomes[i].Response?
      ensures Answers(t, leg.request, leg.outcomes[i].statusCode, leg.outcomes[i].body)
    {
      var id :| id in s.requests && s.requests[id].Answered? && s.requests[id].request == leg.request
        && s.requests[id].statusCode == leg.outcomes[i].statusCode && s.requests[id].body == leg.outcomes[i].body;
      assert id in t.requests && t.requests[id] == s.requests[id];
    }
  }

  lemma OneMoreCopy(s: Server, leg: Leg, outcome: FetchOutcome) returns (more: Leg)
    requires Genuine(s, leg)
    requires outcome.Response? ==> Answers(s, leg.request, outcome.statusCode, outcome.body)
    ensures more == leg.(outcomes := leg.outcomes + [outcome])
    ensures Genuine(s, more) && Copies(more) == Copies(leg) + [leg.request]
  {
    more := leg.(outcomes := leg.outcomes + [outcome]);
  }

  /**
   The bound is reached by one client: its first attempt times out while it is being handled, the second
   copy is looked up meanwhile, and both complete.
   */
  lemma TimedOutAttemptCompletesTwice(o: Options, k: string)
    requires KeyOf(ToRequest(o)) == Some(k)
    ensures Repeatable(o) && MAX_ATTEMPTS >= 2
    ensures exists t ::
              && Reaches(START, [Lookup(0, ToRequest(o)), Lookup(1, ToRequest(o)),
                                 Finish(0, 200, "a"), Finish(1, 200, "b")], t)
              && Completions(t, k) == {0, 1}
  {
    OverlapCompletesTwice(k, ToRequest(o));
  }

  // ---------- One key per intent ----------

  /**
   What a call made under the key `k` leaves behind: every request to a guarded route carried the key,
   and the requests with that key grew by no more than what was sent.
   */
  ghost predicate UnderKey(outbox: seq<Request>, sent: nat, outbox': seq<Request>, sent': nat, k: string) {
    OneKey(outbox, outbox', k) && sent' <= sent + |outbox'| - |outbox|
  }

  /** Success means exactly one completion with the body returned, if lookups of the key do not overlap. */
  ghost predicate Faithful(alone: bool, s: Server, k: string, r: ApiResult) {
    alone && r.Ok? ==> CompletedWith(s, k, r.value)
  }

  /** A POST with this key, or without one, to this path and with this body, under the retry policy. */
  predicate Posts(leg: Leg, target: Target, key: Option<string>, body: string) {
    leg.request == Request(key.Some?, key, "POST", target, body) && ByPolicy(leg.outcomes, key.Some?)
  }

  /** A keyed POST to a guarded route: with overlap, at most one completion per copy sent; without, one. */
  method PostKeyed(net: Network, target: Target, key: string, body: string) returns (r: ApiResult, ghost leg: Leg)
    requires net.Valid() && |key| == 36 && key in net.own
    modifies net, net.server, net.server.store
    ensures net.Valid() && net.own == old(net.own)
    ensures Posts(leg, target, Some(key), body) && r == ResultOf(leg.outcomes)
    ensures net.outbox == old(net.outbox) + Copies(leg)
    ensures UnderKey(old(net.outbox), old(|net.Sent(key)|), net.outbox, |net.Sent(key)|, key)
    ensures |Completions(net.server.Contents(), key)| <= old(|net.Sent(key)|) + |net.outbox| - |old(net.outbox)|
    ensures Faithful(net.alone, net.server.Contents(), key, r)
  {
    var o := Options("POST", target, true, Some(key), body);
    var result, sent, expired := ApiRequest(net, o);
    r, leg := result, sent;
    if net.alone && r.Ok? {
      AnsweredIsCompleted(net.server.Contents(), ToRequest(o), key, r.value);
    }
    CompletionsAreSent(net.wire, net.server.Contents(), key);
  }

  /** A POST without a key goes out exactly once. */
  method PostUnkeyed(net: Network, target: Target, body: string, ghost k: string) returns (r: ApiResult, ghost leg: Leg)
    requires net.Valid() && k in net.own
    modifies net, net.server, net.server.store
    ensures net.Valid() && net.own == old(net.own)
    ensures Posts(leg, target, None, body) && r == ResultOf(leg.outcomes)
    ensures net.outbox == old(net.outbox) + Copies(leg) && Copies(leg) == [Request(false, None, "POST", target, body)]
    ensures UnderKey(old(net.outbox), old(|net.Sent(k)|), net.outbox, |net.Sent(k)|, k)
  {
    var result, sent, expired := ApiRequest(net, Options("POST", target, false, None, body));
    r, leg := result, sent;
  }

  /** `useIdempotencyKey`: a key is minted on first use and kept until the intent is over. */
  class IdempotencyKey {
    var key: Option<string>
    /** Every key this hook has minted. */
    ghost var minted: set<string>

    ghost predicate Valid()
      reads this
    {
      key.Some? ==> key.value in minted && |key.value| == 36
    }

    constructor ()
      ensures Valid() && key == None && minted == {}
    {
      key, minted := None, {};
    }

    /** `random` is what the random source would return now: a fresh 36-character id. */
    method Next(random: string) returns (k: string)
      requires Valid() && (key == None ==> random !in minted && |random| == 36)
      modifies this
      ensures Valid() && k == old(key).GetOr(random) && key == Some(k) && minted == old(minted) + {k}
    {
      if key == None {
        key, minted := Some(random), minted + {random};
      }
      k := key.value;
    }

    /** The key is given up; it stays among the minted ones, so the next one differs from it. */
    method Reset()
      requires Valid()
      modifies this
      ensures Valid() && key == None && minted == old(minted)
    {
      key := None;
    }

    /** One press: the held key, and only success gives it up. */
    method Submit(net: Network, target: Target, body: string, random: string)
      returns (r: ApiResult, ghost k: string, ghost leg: Leg)
      requires Valid() && net.Valid() && (key == None ==> random !in minted && |random| == 36)
      modifies this, net, net.server, net.server.store
      ensures Valid() && net.Valid()
      ensures Posts(leg, target, Some(k), body) && r == ResultOf(leg.outcomes)
      ensures net.outbox == old(net.outbox) + Copies(leg)
      ensures k == old(key).GetOr(random) && minted == old(minted) + {k}
      ensures key == if r.Ok? then None else Some(k)
      ensures UnderKey(old(net.outbox), old(|net.Sent(key.GetOr(random))|), net.outbox, |net.Sent(k)|, k)
      ensures Faithful(net.alone, net.server.Contents(), k, r)
    {
      k := key.GetOr(random);
      ghost var outbox, sent := net.outbox, |net.Sent(k)|;
      var held := Next(random);
      net.Claim(held);
      assert held == k && |net.Sent(k)| == sent;
      r, leg := PostKeyed(net, target, held, body);
      assert UnderKey(outbox, sent, net.outbox, |net.Sent(k)|, k);
      if r.Ok? { Reset(); }
    }

    /**
     One intent over any number of presses, with whatever the form holds at each: one key, which no
     earlier intent had. Without overlap at most one completion of the handler, and exactly one, with the
     body the client got, when it was told so; in any case at most one per request sent with the key. Only
     success gives the key up.
     */
    method SubmitUntilDone(net: Network, target: Target, presses: nat, random: string)
      returns (r: ApiResult, ghost k: string)
      requires Valid() && net.Valid() && key == None && random !in minted && |random| == 36
      modifies this, net, net.server, net.server.store
      ensures Valid() && net.Valid()
      ensures k == random && k !in old(minted) && (presses > 0 ==> k in minted)
      ensures OneKey(old(net.outbox), net.outbox, k)
      ensures net.alone ==> AtMostOnce(net.server.Contents(), k)
      ensures |Completions(net.server.Contents(), k)| <= old(|net.Sent(random)|) + |net.outbox| - |old(net.outbox)|
      ensures Faithful(net.alone, net.server.Contents(), k, r)
      ensures presses > 0 ==> key == if r.Ok? then None else Some(k)
    {
      k, r := random, ClientFailure(Unreachable);
      ghost var outbox, sent := net.outbox, |net.Sent(random)|;
      var pressed := 0;
      while pressed < presses && !r.Ok?
        invariant Valid() && net.Valid() && pressed <= presses
        invariant UnderKey(outbox, sent, net.outbox, |net.Sent(k)|, k)
        invariant Faithful(net.alone, net.server.Contents(), k, r)
        invariant k == random
        invariant if pressed == 0 then key == None && minted == old(minted) && !r.Ok?
                  else k in minted && key == if r.Ok? then None else Some(k)
        decreases presses - pressed
      {
        var body: string := *;
        ghost var leg;
        r, k, leg := Submit(net, target, body, random);
        pressed := pressed + 1;
      }
      CompletionsAreSent(net.wire, net.server.Contents(), k);
      if net.alone { OnceMeansAtMostOnce(net.server.Contents(), k); }
    }
  }

  /** The outcome of an escrow step; `NotSigned` is a wallet that refuses, fails, or is given nothing to sign. */
  datatype StepResult = Api(result: ApiResult) | NotSigned

  /** The calls of one press: the direct one, and the two around the wallet. */
  datatype Press = Press(direct: Option<Leg>, prepare: Option<Leg>, submit: Option<Leg>)

  function CopiesOf(leg: Option<Leg>): seq<Request> {
    match leg
    case None => []
    case Some(l) => Copies(l)
  }

  /** All that a press puts on the wire, in order. */
  function Sends(p: Press): seq<Request> {
    CopiesOf(p.direct) + CopiesOf(p.prepare) + CopiesOf(p.submit)
  }

  /** The JSON text the signed envelope travels in. */
  function Envelope(signedXdr: string): string { "{\"signedXdr\":\"" + signedXdr + "\"}" }

  /** What the wallet makes of a prepared transition. */
  type Wallet = string -> Option<string>

  function Signed(wallet: Wallet, prepared: ApiResult): Option<string> {
    if prepared.Ok? && prepared.value.Some? then wallet(prepared.value.value) else None
  }

  /**
   The wallet-signed part of a press: an unkeyed prepare, and after a signature a keyed submit of the
   signed envelope. Whichever call comes last decides.
   */
  predicate WalletPart(p: Press, path: string, key: string, wallet: Wallet, r: StepResult) {
    && p.prepare.Some? && Posts(p.prepare.value, Target("/api/payments", path + "/prepare"), None, "{}")
    && var prepared := ResultOf(p.prepare.value.outcomes);
       match Signed(wallet, prepared) {
         case None => p.submit.None? && r == if prepared.Ok? then NotSigned else Api(prepared)
         case Some(xdr) =>
           && p.submit.Some?
           && Posts(p.submit.value, Target("/api/payments", path + "/submit"), Some(key), Envelope(xdr))
           && r == Api(ResultOf(p.submit.value.outcomes))
       }
  }

  /**
   A press: unless the wallet is known to sign, first a keyed POST to the action itself, whose answer
   stands unless it is a 409; the wallet-signed part follows on a 409, and from the start otherwise.
   */
  predicate Follows(p: Press, path: string, key: string, walletSigned: bool, wallet: Wallet, r: StepResult) {
    if walletSigned then p.direct.None? && WalletPart(p, path, key, wallet, r)
    else
      && p.direct.Some? && Posts(p.direct.value, Target("/api/payments", path), Some(key), "{}")
      && var direct := ResultOf(p.direct.value.outcomes);
         if direct == ClientError(409) then WalletPart(p, path, key, wallet, r)
         else p.prepare.None? && p.submit.None? && r == Api(direct)
  }

  /** The wallet-signed route: prepare, sign, submit. */
  method SignAndSubmit(net: Network, route: Target, key: string, wallet: Wallet) returns (r: StepResult, ghost p: Press)
    requires net.Valid() && |key| == 36 && key in net.own && route.mount == "/api/payments"
    modifies net, net.server, net.server.store
    ensures net.Valid() && net.own == old(net.own)
    ensures p.direct.None? && WalletPart(p, route.path, key, wallet, r)
    ensures net.outbox == old(net.outbox) + Sends(p)
    ensures UnderKey(old(net.outbox), old(|net.Sent(key)|), net.outbox, |net.Sent(key)|, key)
    ensures r.Api? ==> Faithful(net.alone, net.server.Contents(), key, r.result)
  {
    var prepared, prepare := PostUnkeyed(net, Below(route, "/prepare"), "{}", key);
    p := Press(None, Some(prepare), None);
    if !prepared.Ok? {
      return Api(prepared), p;
    }
    var signed := if prepared.value.Some? then wallet(prepared.value.value) else None;
    if signed.None? { return NotSigned, p; }
    var submitted, submit := PostKeyed(net, Below(route, "/submit"), key, Envelope(signed.value));
    r, p := Api(submitted), Press(None, Some(prepare), Some(submit));
    Regrouped(old(net.outbox), Copies(prepare), Copies(submit));
  }

  lemma Regrouped(a: seq<Request>, b: seq<Request>, c: seq<Request>)
    ensures a + (b + c) == a + b + c
    ensures [] + b + c == b + c
  {}

  /**
   The mutation behind a press. `walletSigned` is the advertised signing mode; a 409 on the
   server-signed route falls through to the wallet-signed one under the same key.
   */
  method Attempt(net: Network, route: Target, key: string, walletSigned: bool, wallet: Wallet)
    returns (r: StepResult, ghost p: Press)
    requires net.Valid() && |key| == 36 && key in net.own && route.mount == "/api/payments"
    modifies net, net.server, net.server.store
    ensures net.Valid() && net.own == old(net.own)
    ensures Follows(p, route.path, key, walletSigned, wallet, r)
    ensures net.outbox == old(net.outbox) + Sends(p)
    ensures UnderKey(old(net.outbox), old(|net.Sent(key)|), net.outbox, |net.Sent(key)|, key)
    ensures r.Api? ==> Faithful(net.alone, net.server.Contents(), key, r.result)
  {
    ghost var first: Option<Leg> := None;
    if !walletSigned {
      var direct, leg := PostKeyed(net, route, key, "{}");
      first := Some(leg);
      if direct != ClientError(CONFLICT) {
        p := DirectStands(leg, route.path, key, wallet);
        return Api(direct), p;
      }
    }
    ghost var outbox, sent := net.outbox, |net.Sent(key)|;
    r, p := SignAndSubmit(net, route, key, wallet);
    UnderKeyThroughout(old(net.outbox), old(|net.Sent(key)|), outbox, sent, net.outbox, |net.Sent(key)|, key);
    p := FallsThrough(old(net.outbox), outbox, net.outbox, first, p, route.path, key, walletSigned, wallet, r);
  }

  lemma UnderKeyThroughout(a: seq<Request>, s: nat, b: seq<Request>, t: nat, c: seq<Request>, u: nat, k: string)
    requires UnderKey(a, s, b, t, k) && UnderKey(b, t, c, u, k)
    ensures UnderKey(a, s, c, u, k)
  {
    assert c[..|a|] == b[..|a|];
  }

  /** A direct call that met with anything but a 409 is a whole press. */
  lemma DirectStands(leg: Leg, path: string, key: string, wallet: Wallet) returns (p: Press)
    requires Posts(leg, Target("/api/payments", path), Some(key), "{}")
    requires ResultOf(leg.outcomes) != ClientError(409)
    ensures Follows(p, path, key, false, wallet, Api(ResultOf(leg.outcomes))) && Sends(p) == Copies(leg)
  {
    p := Press(Some(leg), None, None);
  }

  /** The wallet-signed part after a direct call that met with a 409, or without one, makes a whole press. */
  lemma FallsThrough(start: seq<Request>, before: seq<Request>, after: seq<Request>, first: Option<Leg>, rest: Press,
                     path: string, key: string, walletSigned: bool, wallet: Wallet, r: StepResult)
    returns (p: Press)
    requires rest.direct.None? && WalletPart(rest, path, key, wallet, r)
    requires before == start + CopiesOf(first) && after == before + Sends(rest)
    requires first.None? <==> walletSigned
    requires first.Some? ==>
               && Posts(first.value, Target("/api/payments", path), Some(key), "{}")
               && ResultOf(first.value.outcomes) == ClientError(409)
    ensures Follows(p, path, key, walletSigned, wallet, r) && after == start + Sends(p)
  {
    p := rest.(direct := first);
    Regrouped(start, CopiesOf(first), Sends(rest));
    assert Sends(p) == CopiesOf(first) + Sends(rest);
  }

  /** The same with a key just minted, or minted by an earlier press. */
  method AttemptWith(net: Network, orderId: string, action: string, key: string, walletSigned: bool, wallet: Wallet)
    returns (r: StepResult, ghost p: Press)
    requires net.Valid() && |key| == 36
    modifies net, net.server, net.server.store
    ensures net.Valid() && net.own == old(net.own) + {key}
    ensures Follows(p, "/orders/" + orderId + "/" + action, key, walletSigned, wallet, r)
    ensures net.outbox == old(net.outbox) + Sends(p)
    ensures UnderKey(old(net.outbox), old(|net.Sent(key)|), net.outbox, |net.Sent(key)|, key)
    ensures r.Api? ==> Faithful(net.alone, net.server.Contents(), key, r.result)
  {
    net.Claim(key);
    r, p := Attempt(net, Route(orderId, action), key, walletSigned, wallet);
  }

  function Route(orderId: string, action: string): Target {
    Target("/api/payments", "/orders/" + orderId + "/" + action)
  }

  function Below(route: Target, step: string): Target { route.(path := route.path + step) }

  /** The step came back with success. */
  predicate Succeeds(r: StepResult) { r.Api? && r.result.Ok? }

  /** A key that was noted and given up leaves the others as they were. */
  lemma GivenUpAgain(keys: map<string, string>, action: string, k: string)
    ensures keys[action := k] - {action} == keys - {action}
  {}

  /** `useEscrowAction` for one order. */
  class EscrowAction {
    const orderId: string
    var keys: map<string, string>
    /** Every key this device has minted. */
    ghost var minted: set<string>

    ghost predicate Valid()
      reads this
    {
      && (forall a :: a in keys ==> keys[a] in minted && |keys[a]| == 36)
      && forall a, b :: a in keys && b in keys && keys[a] == keys[b] ==> a == b
    }

    constructor (orderId: string)
      ensures Valid() && keys == map[] && minted == {} && this.orderId == orderId
    {
      this.orderId := orderId;
      keys, minted := map[], {};
    }

    /** `uuid` is what the random source would return: a fresh 36-character id. */
    method KeyFor(action: string, uuid: string) returns (k: string)
      requires Valid() && (action !in keys ==> uuid !in minted && |uuid| == 36)
      modifies this
      ensures Valid()
      ensures k == (if action in old(keys) then old(keys)[action] else uuid)
      ensures keys == old(keys)[action := k] && minted == old(minted) + {k}
    {
      if action in keys {
        return keys[action];
      }
      keys := keys[action := uuid];
      minted := minted + {uuid};
      k := uuid;
    }

    /** `onSuccess`: the intent completed, the next one starts with a fresh key. */
    method GiveUp(action: string)
      requires Valid()
      modifies this`keys
      ensures Valid() && keys == old(keys) - {action}
    {
      keys := keys - {action};
    }

    /** One press of the button: which calls go out, in order, and what decides; only success gives the key up. */
    method Perform(net: Network, action: string, walletSigned: bool, wallet: Wallet, uuid: string)
      returns (r: StepResult, ghost k: string, ghost p: Press)
      requires Valid() && net.Valid() && (action !in keys ==> uuid !in minted && |uuid| == 36)
      modifies this, net, net.server, net.server.store
      ensures Valid() && net.Valid()
      ensures k == if action in old(keys) then old(keys)[action] else uuid
      ensures minted == old(minted) + {k} && net.own == old(net.own) + {k}
      ensures keys == if r.Api? && r.result.Ok? then old(keys) - {action} else old(keys)[action := k]
      ensures Follows(p, "/orders/" + orderId + "/" + action, k, walletSigned, wallet, r)
      ensures net.outbox == old(net.outbox) + Sends(p)
      ensures UnderKey(old(net.outbox), old(|net.Sent(if action in keys then keys[action] else uuid)|),
                       net.outbox, |net.Sent(k)|, k)
      ensures r.Api? && r.result.Ok? ==> Faithful(net.alone, net.server.Contents(), k, r.result)
    {
      k := if action in keys then keys[action] else uuid;
      ghost var outbox, sent := net.outbox, |net.Sent(k)|;
      var key := KeyFor(action, uuid);
      assert key == k && |net.Sent(k)| == sent;
      GivenUpAgain(old(keys), action, k);
      r, p := AttemptWith(net, orderId, action, key, walletSigned, wallet);
      assert UnderKey(outbox, sent, net.outbox, |net.Sent(k)|, k);
      if Succeeds(r) { GiveUp(action); }
    }

    /**
     One intent from the first press to success or to the user giving up, over both routes and any
     number of presses. Without overlap: one key, at most one completion of the handler, exactly one
     when the client was told so, and then with the body the client got. In any case the handler
     completes at most once per request sent with the key, which is none before the intent if it is fresh.
     */
    method PressUntilDone(net: Network, action: string, presses: nat, uuid: string)
      returns (r: StepResult, ghost k: string)
      requires Valid() && net.Valid() && action !in keys && uuid !in minted && |uuid| == 36
      modifies this, net, net.server, net.server.store
      ensures Valid() && net.Valid()
      ensures OneKey(old(net.outbox), net.outbox, k)
      ensures OnRoute(old(net.outbox), net.outbox, "/orders/" + orderId + "/" + action)
      ensures presses > 0 ==> |net.outbox| > |old(net.outbox)|
      ensures net.alone ==> AtMostOnce(net.server.Contents(), k)
      ensures |Completions(net.server.Contents(), k)| <= old(|net.Sent(uuid)|) + |net.outbox| - |old(net.outbox)|
      ensures k == uuid
      ensures presses > 0 && !(r.Api? && r.result.Ok?) ==> action in keys && keys[action] == k
      ensures r.Api? && r.result.Ok? ==> action !in keys && Faithful(net.alone, net.server.Contents(), k, r.result)
    {
      k := uuid;
      r := NotSigned;
      var pressed := 0;
      while pressed < presses && !Succeeds(r)
        invariant Valid() && net.Valid()
        invariant UnderKey(old(net.outbox), old(|net.Sent(uuid)|), net.outbox, |net.Sent(k)|, k)
        invariant OnRoute(old(net.outbox), net.outbox, "/orders/" + orderId + "/" + action)
        invariant pressed > 0 ==> |net.outbox| > |old(net.outbox)|
        invariant k == uuid && (action in keys ==> keys[action] == k)
        invariant action !in keys ==> pressed == 0 || Succeeds(r)
        invariant pressed == 0 ==> minted == old(minted) && r == NotSigned
        invariant Succeeds(r) ==> action !in keys && Faithful(net.alone, net.server.Contents(), k, r.result)
        decreases presses - pressed
      {
        var walletSigned: bool, wallet: Wallet := *, *;
        ghost var before, p := net.outbox, Press(None, None, None);
        r, k, p := Perform(net, action, walletSigned, wallet, uuid);
        PressStaysOnRoute(old(net.outbox), before, net.outbox, p, "/orders/" + orderId + "/" + action, k,
                          walletSigned, wallet, r);
        pressed := pressed + 1;
      }
      CompletionsAreSent(net.wire, net.server.Contents(), k);
      if net.alone { OnceMeansAtMostOnce(net.server.Contents(), k); }
    }
  }

  /** Every request sent since `outbox` goes to the action or to one of its two wallet steps. */
  ghost predicate OnRoute(outbox: seq<Request>, outbox': seq<Request>, path: string) {
    && |outbox| <= |outbox'| && outbox'[..|outbox|] == outbox
    && forall i :: |outbox| <= i < |outbox'| ==>
         outbox'[i].target in {Target("/api/payments", path), Target("/api/payments", path + "/prepare"),
                               Target("/api/payments", path + "/submit")}
  }

  /** A press sends at least one request, and only to its own three routes. */
  lemma PressStaysOnRoute(start: seq<Request>, before: seq<Request>, after: seq<Request>, p: Press, path: string,
                          key: string, walletSigned: bool, wallet: Wallet, r: StepResult)
    requires OnRoute(start, before, path) && after == before + Sends(p)
    requires Follows(p, path, key, walletSigned, wallet, r)
    ensures OnRoute(start, after, path) && |after| > |before|
  {
    forall i | |before| <= i < |after|
      ensures after[i].target in {Target("/api/payments", path), Target("/api/payments", path + "/prepare"),
                                  Target("/api/payments", path + "/submit")}
    {
      assert after[i] == Sends(p)[i - |before|];
    }
    assert after[..|start|] == before[..|start|];
  }

  /** Every request sent since `outbox` to a guarded route carries the key `k`. */
  ghost predicate OneKey(outbox: seq<Request>, outbox': seq<Request>, k: string) {
    && |outbox| <= |outbox'| && outbox'[..|outbox|] == outbox
    && forall i :: |outbox| <= i < |outbox'| && outbox'[i].guarded ==> outbox'[i].key == Some(k)
  }

  /** The handler completed for `k` exactly once, and `value` is what it answered. */
  ghost predicate CompletedWith(s: Server, k: string, value: Option<string>) {
    exists id :: Completions(s, k) == {id} && value == Parsed(s.requests[id].statusCode, s.requests[id].body)
  }

  lemma AnsweredIsCompleted(s: Server, r: Request, k: string, value: Option<string>)
    requires OnceInv(s, k) && KeyOf(r) == Some(k) && Succeeded(s, r, value)
    ensures CompletedWith(s, k, value)
  {
    var id :| id in s.requests && s.requests[id].Answered? && s.requests[id].request == r
      && Success(s.requests[id].statusCode) && value == Parsed(s.requests[id].statusCode, s.requests[id].body);
    assert SuccessSent(s, k, id);
    assert k in s.store;
    var i: RequestId :| IsCompleted(s, k, i);
    assert Completions(s, k) == {i};
  }
}
