/** The body-hash cache: what is captured, for how long it is replayed, and to whom. */
module DedupCache {
  import opened Text
  import opened Ordering
  import opened CanonicalJson
  import opened JsonText
  import opened Callers
  import opened DedupKey

  predicate Deduplicated(r: Request) { r.verb in MUTABLE_METHODS && !r.idempotencyHeader }

  predicate Success(status: int) { 200 <= status < 300 }

  datatype Cached = Cached(status: int, body: Js, expiresAt: int)

  /** A response whose res.json is intercepted: the payload it will be stored under, and for how long. */
  datatype Wrap = Wrap(key: string, ttl: int)

  datatype State = State(cache: map<string, Cached>, open: map<nat, Wrap>)

  /** The middleware reads the clock twice: to evict, then to look up. */
  datatype Event =
    | Arrive(id: nat, req: Request, ttl: int, swept: int, now: int)
    | Answer(id: nat, status: int, body: Js, now: int)
    | Clear(now: int)

  datatype Outcome = Passed | Replayed(status: int, body: Js) | Wrapped | Sent

  function Evicted(cache: map<string, Cached>, now: int): map<string, Cached> {
    map k | k in cache && cache[k].expiresAt > now :: cache[k]
  }

  function Step(less: KeyOrder, s: State, e: Event): (State, Outcome) {
    match e
    case Arrive(id, req, ttl, swept, now) =>
      if !Deduplicated(req) then (s, Passed)
      else
        var key, cache := Payload(less, req), Evicted(s.cache, swept);
        if key in cache && cache[key].expiresAt > now
        then (State(cache, s.open), Replayed(cache[key].status, cache[key].body))
        else (State(cache, s.open[id := Wrap(key, ttl)]), Wrapped)
    case Answer(id, status, body, now) =>
      if id !in s.open then (s, Sent)
      else
        var w := s.open[id];
        var cache := if Success(status) then s.cache[w.key := Cached(status, body, now + w.ttl)] else s.cache;
        (State(cache, s.open - {id}), Sent)
    case Clear(_) => (State(map[], s.open), Sent)
  }

  function After(less: KeyOrder, es: seq<Event>): State
    decreases |es|
  {
    if es == [] then State(map[], map[]) else Step(less, After(less, es[..|es| - 1]), es[|es| - 1]).0
  }

  function Begins(e: Event): int { if e.Arrive? then e.swept else e.now }

  ghost predicate Timed(es: seq<Event>) {
    && (forall i :: 0 <= i < |es| ==> Begins(es[i]) <= es[i].now)
    && (forall i, j :: 0 <= i < j < |es| ==> es[i].now <= Begins(es[j]))
  }

  ghost predicate Before(es: seq<Event>, now: int) { forall i :: 0 <= i < |es| ==> es[i].now <= now }

  // --------------------------------------------------------- the latest captured response

  datatype Capture = Capture(index: nat, held: Cached)

  predicate Captures(less: KeyOrder, before: seq<Event>, e: Event, key: string) {
    e.Answer? && Success(e.status) && e.id in After(less, before).open && After(less, before).open[e.id].key == key
  }

  /** The last success captured under a payload since the cache was last cleared. */
  function LastCapture(less: KeyOrder, es: seq<Event>, key: string): (r: Option<Capture>)
    ensures r.Some? ==> r.value.index < |es|
    decreases |es|
  {
    if es == [] then None
    else
      var before, e := es[..|es| - 1], es[|es| - 1];
      if e.Clear? then None
      else if Captures(less, before, e, key)
      then Some(Capture(|es| - 1, Cached(e.status, e.body, e.now + After(less, before).open[e.id].ttl)))
      else LastCapture(less, before, key)
  }

  /** The cache holds nothing but latest captures, and every one of them that has not expired. */
  ghost predicate Exact(less: KeyOrder, es: seq<Event>, key: string, now: int) {
    var cache, last := After(less, es).cache, LastCapture(less, es, key);
    && (key in cache ==> last.Some? && cache[key] == last.value.held)
    && (last.Some? && last.value.held.expiresAt > now ==> key in cache)
  }

  lemma StepKeepsExact(less: KeyOrder, es: seq<Event>, e: Event, key: string, now: int)
    requires Exact(less, es, key, now) && Begins(e) <= now
    ensures Exact(less, es + [e], key, now)
  {
    assert (es + [e])[..|es|] == es;
  }

  lemma {:induction false} CacheIsExact(less: KeyOrder, es: seq<Event>, key: string, now: int)
    requires Timed(es) && Before(es, now)
    ensures Exact(less, es, key, now)
    decreases |es|
  {
    if es != [] {
      var before, e := es[..|es| - 1], es[|es| - 1];
      assert es == before + [e];
      CacheIsExact(less, before, key, now);
      StepKeepsExact(less, before, e, key, now);
    }
  }

  /** A deduplicated request is answered from the cache exactly when its payload's latest capture is
      younger than its lifetime, and then with that capture; otherwise its handler runs. */
  lemma RequestIsDecided(less: KeyOrder, es: seq<Event>, id: nat, req: Request, ttl: int, swept: int, now: int)
    requires Timed(es + [Arrive(id, req, ttl, swept, now)]) && Deduplicated(req)
    ensures var last := LastCapture(less, es, Payload(less, req));
            Step(less, After(less, es), Arrive(id, req, ttl, swept, now)).1
            == if last.Some? && last.value.held.expiresAt > now
               then Replayed(last.value.held.status, last.value.held.body) else Wrapped
  {
    var e := Arrive(id, req, ttl, swept, now);
    var all := es + [e];
    assert all[|es|] == e && Begins(e) == swept;
    assert Timed(es) by {
      assert forall i :: 0 <= i < |es| ==> es[i] == all[i];
    }
    assert Before(es, swept) by {
      forall i | 0 <= i < |es| ensures es[i].now <= swept {
        assert es[i] == all[i];
      }
    }
    CacheIsExact(less, es, Payload(less, req), swept);
  }

  /** Which requests are fingerprinted at all: those with a mutating method and no idempotency header.
      Any other passes and leaves no trace. */
  lemma PassesIff(less: KeyOrder, s: State, id: nat, req: Request, ttl: int, swept: int, now: int)
    ensures var (t, outcome) := Step(less, s, Arrive(id, req, ttl, swept, now));
            && (outcome.Passed? <==> req.verb !in ["POST", "PUT", "PATCH", "DELETE"] || req.idempotencyHeader)
            && (outcome.Passed? ==> t == s)
            && (outcome.Wrapped? ==> id in t.open && t.open[id].ttl == ttl)
  {
  }

  /** What an answer leaves behind: a status from 200 to 299 is kept, with its body, for the request's
      lifetime; any other, and a second answer of one response, is not. */
  lemma AnswerKeptIff(less: KeyOrder, s: State, id: nat, status: int, body: Js, now: int)
    ensures var t := Step(less, s, Answer(id, status, body, now)).0;
            && id !in t.open && t.open == s.open - {id}
            && if id in s.open && 200 <= status <= 299
               then t.cache == s.cache[s.open[id].key := Cached(status, body, now + s.open[id].ttl)]
               else t.cache == s.cache
  {
    assert id !in s.open ==> s.open - {id} == s.open;
  }

  // -------------------------------------------------------------- who gets a replay

  /** The arrival that opened what is captured. */
  ghost predicate Opens(less: KeyOrder, e: Event, id: nat, w: Wrap) {
    e.Arrive? && e.id == id && Deduplicated(e.req) && w == Wrap(Payload(less, e.req), e.ttl)
  }

  lemma {:induction false} OpenHasArrival(less: KeyOrder, es: seq<Event>, id: nat) returns (j: nat)
    requires id in After(less, es).open
    ensures j < |es| && Opens(less, es[j], id, After(less, es).open[id])
    decreases |es|
  {
    var before, e := es[..|es| - 1], es[|es| - 1];
    if Opens(less, e, id, After(less, es).open[id]) {
      j := |es| - 1;
    } else {
      j := OpenHasArrival(less, before, id);
    }
  }

  /** Where a capture comes from: a request with that payload arrived and was given that success. */
  ghost predicate Origin(less: KeyOrder, es: seq<Event>, key: string, j: nat, c: Capture) {
    && j < c.index < |es|
    && es[j].Arrive? && Deduplicated(es[j].req) && Payload(less, es[j].req) == key
    && es[c.index].Answer? && es[c.index].id == es[j].id && Success(es[c.index].status)
    && c.held == Cached(es[c.index].status, es[c.index].body, es[c.index].now + es[j].ttl)
  }

  lemma {:induction false} CaptureHasOrigin(less: KeyOrder, es: seq<Event>, key: string) returns (j: nat)
    requires LastCapture(less, es, key).Some?
    ensures Origin(less, es, key, j, LastCapture(less, es, key).value)
    decreases |es|
  {
    var before, e := es[..|es| - 1], es[|es| - 1];
    if Captures(less, before, e, key) {
      j := OpenHasArrival(less, before, e.id);
    } else {
      j := CaptureHasOrigin(less, before, key);
    }
  }

  /** The run's parsed requests, whose keys all lie apart from this caller's. */
  ghost predicate AllHashable(es: seq<Event>, caller: Caller) {
    forall i :: 0 <= i < |es| && es[i].Arrive? && Deduplicated(es[i].req) ==>
      Hashable(es[i].req) && KeysApart(Resolve(es[i].req.caller), Resolve(caller))
  }

  /** Only this caller has this caller's key text. */
  ghost predicate NobodyAlike(es: seq<Event>, caller: Caller) {
    forall i :: 0 <= i < |es| && es[i].Arrive? && Alike(es[i].req.caller, caller) ==> es[i].req.caller == caller
  }

  /** An earlier success, given less than its lifetime ago to an alike caller for the same verb, path
      and JSON body. */
  ghost predicate EarlierSuccess(es: seq<Event>, req: Request, status: int, body: Js, now: int, j: nat, i: nat) {
    && j < i < |es| && es[j].Arrive? && es[i].Answer? && es[i].id == es[j].id
    && SameRequest(es[j].req, req)
    && 200 <= es[i].status <= 299 && es[i].status == status && es[i].body == body
    && es[i].now <= now < es[i].now + es[j].ttl
  }

  /** Whatever is replayed is a success an alike caller was given for the same request, key order
      aside, less than one lifetime ago. */
  lemma ReplayIsAnAlikeCallers(less: KeyOrder, es: seq<Event>, id: nat, req: Request, ttl: int, swept: int, now: int)
    requires StrictTotalOrder(less) && AllHashable(es, req.caller) && Hashable(req) && Deduplicated(req)
    requires Timed(es + [Arrive(id, req, ttl, swept, now)])
    requires Step(less, After(less, es), Arrive(id, req, ttl, swept, now)).1.Replayed?
    ensures var r := Step(less, After(less, es), Arrive(id, req, ttl, swept, now)).1;
            exists j: nat, i: nat :: EarlierSuccess(es, req, r.status, r.body, now, j, i)
  {
    RequestIsDecided(less, es, id, req, ttl, swept, now);
    var key := Payload(less, req);
    var c := LastCapture(less, es, key).value;
    var j := CaptureHasOrigin(less, es, key);
    PayloadNamesTheRequest(less, es[j].req, req);
    var all := es + [Arrive(id, req, ttl, swept, now)];
    assert es[c.index] == all[c.index] && all[|es|] == Arrive(id, req, ttl, swept, now);
    assert EarlierSuccess(es, req, c.held.status, c.held.body, now, j, c.index);
  }

  /** If nobody else in the run is alike, it is the caller's own. */
  lemma ReplayIsTheCallersOwn(less: KeyOrder, es: seq<Event>, id: nat, req: Request, ttl: int, swept: int, now: int)
    requires StrictTotalOrder(less) && AllHashable(es, req.caller) && Hashable(req) && Deduplicated(req)
    requires NobodyAlike(es, req.caller) && Timed(es + [Arrive(id, req, ttl, swept, now)])
    requires Step(less, After(less, es), Arrive(id, req, ttl, swept, now)).1.Replayed?
    ensures var r := Step(less, After(less, es), Arrive(id, req, ttl, swept, now)).1;
            exists j: nat, i: nat ::
              EarlierSuccess(es, req, r.status, r.body, now, j, i) && es[j].req.caller == req.caller
  {
    ReplayIsAnAlikeCallers(less, es, id, req, ttl, swept, now);
    var r := Step(less, After(less, es), Arrive(id, req, ttl, swept, now)).1;
    var j: nat, i: nat :| EarlierSuccess(es, req, r.status, r.body, now, j, i);
    assert es[j].req.caller == req.caller;
  }

  /** One request is answered with a success, and another arrives within its lifetime. */
  function Following(first: Request, next: Request, status: int, body: Js, ttl: int, start: int, now: int): seq<Event> {
    [Arrive(0, first, ttl, start, start), Answer(0, status, body, start), Arrive(1, next, ttl, now, now)]
  }

  lemma AfterTwo(less: KeyOrder, e: Event, f: Event)
    ensures After(less, [e, f]) == Step(less, Step(less, State(map[], map[]), e).0, f).0
  {
    assert [e, f][..1] == [e] && [e][..0] == [];
    assert After(less, [e]) == Step(less, After(less, []), e).0;
  }

  /** Two fingerprinted requests share a response exactly when they are the same request from alike
      callers, different callers included. */
  lemma SharedIff(less: KeyOrder, first: Request, next: Request, status: int, body: Js, ttl: int, start: int, now: int)
    requires StrictTotalOrder(less) && Hashable(first) && Hashable(next) && Deduplicated(first) && Deduplicated(next)
    requires KeysApart(Resolve(first.caller), Resolve(next.caller))
    requires 200 <= status <= 299 && start <= now < start + ttl
    ensures var es := Following(first, next, status, body, ttl, start, now);
            (Step(less, After(less, es[..2]), es[2]).1 == Replayed(status, body)) <==> SameRequest(first, next)
  {
    var es := Following(first, next, status, body, ttl, start, now);
    assert es[..2] == [es[0], es[1]];
    AfterSuccess(less, first, status, body, ttl, start);
    PayloadNamesTheRequest(less, first, next);
  }

  /** A success to a first request is all the cache then holds. */
  lemma AfterSuccess(less: KeyOrder, first: Request, status: int, body: Js, ttl: int, start: int)
    requires Deduplicated(first) && Success(status)
    ensures After(less, [Arrive(0, first, ttl, start, start), Answer(0, status, body, start)])
            == State(map[Payload(less, first) := Cached(status, body, start + ttl)], map[])
  {
    AfterTwo(less, Arrive(0, first, ttl, start, start), Answer(0, status, body, start));
    ArrivalIsWrapped(less, first, ttl, start);
    AnswerIsStored(less, Payload(less, first), status, body, ttl, start);
  }

  lemma ArrivalIsWrapped(less: KeyOrder, first: Request, ttl: int, start: int)
    requires Deduplicated(first)
    ensures Step(less, State(map[], map[]), Arrive(0, first, ttl, start, start)).0
            == State(map[], map[0 := Wrap(Payload(less, first), ttl)])
  {
    assert Evicted(map[], start) == map[];
  }

  lemma AnswerIsStored(less: KeyOrder, key: string, status: int, body: Js, ttl: int, start: int)
    requires Success(status)
    ensures Step(less, State(map[], map[0 := Wrap(key, ttl)]), Answer(0, status, body, start)).0
            == State(map[key := Cached(status, body, start + ttl)], map[])
  {
  }

  /** The second of two subjects without a key, and a header that spells a key's id, are replayed
      another caller's response. */
  lemma OthersResponseIsReplayed(less: KeyOrder, a: string, b: string, n: nat, path: string, status: int, body: Js,
                                 ttl: int, start: int, now: int)
    requires StrictTotalOrder(less) && n > 0 && 200 <= status <= 299 && start <= now < start + ttl
    ensures var first, next := Request(Anonymous(a), "POST", path, Undef, false), Request(Anonymous(b), "POST", path,
            Undef, false);
            var es := Following(first, next, status, body, ttl, start, now);
            Step(less, After(less, es[..2]), es[2]).1 == Replayed(status, body)
    ensures var first, next := Request(KeyId(n), "POST", path, Undef, false), Request(Header(Decimal(n), b), "POST",
            path, Undef, false);
            var es := Following(first, next, status, body, ttl, start, now);
            Step(less, After(less, es[..2]), es[2]).1 == Replayed(status, body)
  {
    DecimalIsNotAnonymous(n);
    DecimalHasNoColon(n);
    KeysWithoutColonAreApart("anonymous", "anonymous");
    KeysWithoutColonAreApart(Decimal(n), Decimal(n));
    SharedIff(less, Request(Anonymous(a), "POST", path, Undef, false),
      Request(Anonymous(b), "POST", path, Undef, false),
              status, body, ttl, start, now);
    SharedIff(less, Request(KeyId(n), "POST", path, Undef, false),
      Request(Header(Decimal(n), b), "POST", path, Undef, false),
              status, body, ttl, start, now);
  }

  lemma DecimalHasNoColon(n: nat)
    ensures ':' !in Decimal(n)
  {
  }

  // ------------------------------------------------------------------ the cache in place

  class Deduplicator {
    var cache: map<string, Cached>
    var open: map<nat, Wrap>

    ghost function Abstract(): State
      reads this
    {
      State(cache, open)
    }

    constructor ()
      ensures Abstract() == State(map[], map[])
    {
      cache, open := map[], map[];
    }

    method EvictExpired(now: int)
      modifies this`cache
      ensures cache == Evicted(old(cache), now)
      ensures forall key :: key in cache <==> key in old(cache) && old(cache)[key].expiresAt > now
      ensures forall key :: key in cache ==> cache[key] == old(cache)[key]
    {
      var left := cache.Keys;
      while left != {}
        invariant left <= old(cache).Keys
        invariant cache == map k | k in old(cache) && (k in left || old(cache)[k].expiresAt > now) :: old(cache)[k]
        decreases left
      {
        var key :| key in left;
        if cache[key].expiresAt <= now {
          cache := cache - {key};
        }
        left := left - {key};
      }
    }

    method Middleware(less: KeyOrder, id: nat, who: Credentials, verb: string, path: string, body: Js,
                      idempotencyHeader: bool, ttl: int, swept: int, now: int) returns (outcome: Outcome)
      modifies this
      ensures var req := Request(CallerOf(who), verb, path, body, idempotencyHeader);
              (Abstract(), outcome) == Step(less, old(Abstract()), Arrive(id, req, ttl, swept, now))
    {
      if verb !in MUTABLE_METHODS || idempotencyHeader {
        return Passed;
      }
      EvictExpired(swept);
      var apiKey := ResolveApiKey(who);
      var key := apiKey + ([':'] + (verb + ([':'] + (path + ([':'] + NormaliseBody(less, body))))));
      if key in cache && cache[key].expiresAt > now {
        return Replayed(cache[key].status, cache[key].body);
      }
      open := open[id := Wrap(key, ttl)];
      outcome := Wrapped;
    }

    method InterceptJson(less: KeyOrder, id: nat, status: int, body: Js, now: int)
      modifies this
      ensures Abstract() == Step(less, old(Abstract()), Answer(id, status, body, now)).0
    {
      if id in open {
        var w := open[id];
        if Success(status) {
          cache := cache[w.key := Cached(status, body, now + w.ttl)];
        }
        open := open - {id};
      }
    }

    method ClearCache(less: KeyOrder, now: int)
      modifies this
      ensures Abstract() == Step(less, old(Abstract()), Clear(now)).0
    {
      cache := map[];
    }
  }
}
