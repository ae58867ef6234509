/**
 Idempotency keys: the in-memory store scoped by caller and route, and the
 middleware that replays a cached response instead of executing a request again.
 */
module Idempotency {
  import opened Common

  function ScopedKey(user: string, route: string, raw: string): string {
    user + ":" + route + ":" + raw
  }

  // ---- When scoped keys identify what they were built from ----

  lemma ColonSplits(a: string, x: string, b: string, y: string)
    requires ':' !in a && ':' !in b && a + ":" + x == b + ":" + y
    ensures a == b && x == y
  {
    var s, t := a + ":" + x, b + ":" + y;
    assert s[|a|] == ':' && t[|b|] == ':';
    assert forall i :: 0 <= i < |a| ==> s[i] == a[i];
    assert forall i :: 0 <= i < |b| ==> t[i] == b[i];
    assert |a| == |b|;
    assert a == s[..|a|] && b == t[..|b|];
    assert x == s[|a| + 1..] && y == t[|b| + 1..];
  }

  /** With user ids of one length and routes without a colon, the scoped key is injective. */
  lemma ScopedKeyInjective(u1: string, r1: string, k1: string, u2: string, r2: string, k2: string)
    requires |u1| == |u2| && ':' !in r1 && ':' !in r2
    requires ScopedKey(u1, r1, k1) == ScopedKey(u2, r2, k2)
    ensures u1 == u2 && r1 == r2 && k1 == k2
  {
    var s, t := ScopedKey(u1, r1, k1), ScopedKey(u2, r2, k2);
    assert u1 == s[..|u1|] && u2 == t[..|u2|];
    assert r1 + ":" + k1 == s[|u1| + 1..] && r2 + ":" + k2 == t[|u2| + 1..];
    ColonSplits(r1, k1, r2, k2);
  }

  /** Two callers can collide for some pair of keys exactly when one scope is a prefix of the other. */
  lemma CollisionIff(u1: string, r1: string, u2: string, r2: string)
    ensures (exists k1, k2 :: ScopedKey(u1, r1, k1) == ScopedKey(u2, r2, k2)) <==>
            u1 + ":" + r1 + ":" <= u2 + ":" + r2 + ":" || u2 + ":" + r2 + ":" <= u1 + ":" + r1 + ":"
  {
    var p, q := u1 + ":" + r1 + ":", u2 + ":" + r2 + ":";
    if k1, k2 :| ScopedKey(u1, r1, k1) == ScopedKey(u2, r2, k2) {
      assert p == ScopedKey(u1, r1, k1)[..|p|] && q == ScopedKey(u2, r2, k2)[..|q|];
    }
    if p <= q {
      assert ScopedKey(u1, r1, q[|p|..]) == p + q[|p|..] == q == ScopedKey(u2, r2, "");
    } else if q <= p {
      assert ScopedKey(u2, r2, p[|q|..]) == q + p[|q|..] == p == ScopedKey(u1, r1, "");
    }
  }

  /** Under one and the same raw key, two callers share an entry exactly when user and route run together. */
  lemma SameRawKeyCollidesIff(u1: string, r1: string, u2: string, r2: string, raw: string)
    ensures ScopedKey(u1, r1, raw) == ScopedKey(u2, r2, raw) <==> u1 + ":" + r1 == u2 + ":" + r2
    ensures ScopedKey("auth:a:/b", "/c", raw) == ScopedKey("auth:a", "/b:/c", raw)
  {
    var s, t := ScopedKey(u1, r1, raw), ScopedKey(u2, r2, raw);
    if s == t {
      assert u1 + ":" + r1 == s[..|s| - |raw| - 1] && u2 + ":" + r2 == t[..|t| - |raw| - 1];
    }
    assert "auth:a:/b" + ":" + "/c" == "auth:a" + ":" + "/b:/c";
  }

  // ---- Caller identities ----

  /** What a request says about its sender. */
  datatype Sender = Sender(apiKey: Option<string>, authorization: Option<string>, clientIp: string, userAgent: string) {
    function Origin(): string { clientIp + "|" + userAgent }
  }

  function First32(s: string): string {
    if |s| <= 32 then s else s[..32]
  }

  /** The API key if there is one, else the start of the Authorization header, else address and agent. */
  function Identity(hash: string -> string, s: Sender): string {
    if s.apiKey.Some? then "api:" + hash(s.apiKey.value)
    else if s.authorization.Some? then "auth:" + First32(s.authorization.value)
    else "anon:" + hash(s.Origin())
  }

  /** Equal texts, or long ones with the same first 32 characters. */
  predicate StartAlike(a: string, b: string) {
    a == b || (|a| >= 32 && |b| >= 32 && a[..32] == b[..32])
  }

  /** Two senders present themselves alike: the header is compared on its first 32 characters only. */
  predicate Alike(a: Sender, b: Sender) {
    if a.apiKey.Some? || b.apiKey.Some? then a.apiKey == b.apiKey
    else if a.authorization.Some? || b.authorization.Some? then
      a.authorization.Some? && b.authorization.Some? && StartAlike(a.authorization.value, b.authorization.value)
    else a.Origin() == b.Origin()
  }

  /** Senders told apart only by texts that have the same hash. */
  predicate HashesCollide(hash: string -> string, a: Sender, b: Sender) {
    if a.apiKey.Some? || b.apiKey.Some? then
      a.apiKey.Some? && b.apiKey.Some? && a.apiKey != b.apiKey && hash(a.apiKey.value) == hash(b.apiKey.value)
    else
      && a.authorization.None? && b.authorization.None?
      && a.Origin() != b.Origin() && hash(a.Origin()) == hash(b.Origin())
  }

  lemma SamePrefix(p: string, x: string, y: string)
    ensures p + x == p + y <==> x == y
  {
    assert (p + x)[|p|..] == x && (p + y)[|p|..] == y;
  }

  lemma KindsDiffer(x: string, y: string, z: string)
    ensures "api:" + x != "auth:" + y && "api:" + x != "anon:" + z && "auth:" + y != "anon:" + z
  {
    assert ("api:" + x)[1] == 'p' && ("auth:" + y)[1] == 'u' && ("anon:" + z)[1] == 'n';
  }

  /** Two senders share one identity exactly when they present themselves alike or the hash collides. */
  lemma SameIdentityIff(hash: string -> string, a: Sender, b: Sender)
    ensures Identity(hash, a) == Identity(hash, b) <==> Alike(a, b) || HashesCollide(hash, a, b)
  {
    var ka, kb := hash(a.apiKey.GetOr("")), hash(b.apiKey.GetOr(""));
    var ha, hb := First32(a.authorization.GetOr("")), First32(b.authorization.GetOr(""));
    var na, nb := hash(a.Origin()), hash(b.Origin());
    SamePrefix("api:", ka, kb);
    SamePrefix("auth:", ha, hb);
    assert ha == hb <==> StartAlike(a.authorization.GetOr(""), b.authorization.GetOr(""));
    SamePrefix("anon:", na, nb);
    KindsDiffer(ka, hb, nb);
    KindsDiffer(kb, ha, na);
    KindsDiffer(ka, ha, nb);
    KindsDiffer(kb, hb, na);
  }

  // ---- The store ----

  datatype Stored = Stored(status: nat, body: string, storedAt: int)

  datatype Collision = CrossUserCollision

  type Store = map<string, (string, Stored)>

  function Get(store: Store, ttl: nat, user: string, route: string, raw: string, now: int): Result<Option<Stored>,
               Collision> {
    var scoped := ScopedKey(user, route, raw);
    if scoped !in store then Ok(None)
    else if store[scoped].0 != user then Err(CrossUserCollision)
    else if now - store[scoped].1.storedAt < ttl then Ok(Some(store[scoped].1))
    else Ok(None)
  }

  class IdempotencyStore {
    const ttl: nat
    var inner: Store

    constructor (ttl: nat)
      ensures this.ttl == ttl && inner == map[]
    {
      this.ttl, inner := ttl, map[];
    }

    method Lookup(user: string, route: string, raw: string, now: int) returns (r: Result<Option<Stored>, Collision>)
      ensures r == Get(inner, ttl, user, route, raw, now)
    {
      var scoped := ScopedKey(user, route, raw);
      if scoped in inner {
        var (owner, cached) := inner[scoped];
        if owner != user {
          return Err(CrossUserCollision);
        }
        if now - cached.storedAt < ttl {
          return Ok(Some(cached));
        }
      }
      return Ok(None);
    }

    method Insert(user: string, route: string, raw: string, response: Stored)
      modifies this
      ensures inner == Put(old(inner), Call(user, route, raw, response))
    {
      inner := inner[ScopedKey(user, route, raw) := (user, response)];
    }
  }

  /** One `set` call. */
  datatype Call = Call(user: string, route: string, raw: string, response: Stored) {
    predicate For(u: string, r: string, k: string) { user == u && route == r && raw == k }
    function Scoped(): string { ScopedKey(user, route, raw) }
  }

  function Put(store: Store, c: Call): Store {
    store[c.Scoped() := (c.user, c.response)]
  }

  function Exec(calls: seq<Call>): Store {
    if calls == [] then map[] else Put(Exec(calls[..|calls| - 1]), calls[|calls| - 1])
  }

  /** Call i is the last one under the scoped key. */
  ghost predicate LastUnder(calls: seq<Call>, scoped: string, i: int) {
    0 <= i < |calls| && calls[i].Scoped() == scoped && forall j :: i < j < |calls| ==> calls[j].Scoped() != scoped
  }

  lemma {:induction false} StoreHoldsLast(calls: seq<Call>, scoped: string)
    ensures scoped !in Exec(calls) ==> forall i :: 0 <= i < |calls| ==> calls[i].Scoped() != scoped
    ensures scoped in Exec(calls) ==>
              exists i :: LastUnder(calls, scoped, i) && Exec(calls)[scoped] == (calls[i].user, calls[i].response)
  {
    if calls != [] {
      var n := |calls| - 1;
      var front := calls[..n];
      StoreHoldsLast(front, scoped);
      if calls[n].Scoped() == scoped {
        assert LastUnder(calls, scoped, n);
      } else if scoped in Exec(front) {
        var i :| LastUnder(front, scoped, i) && Exec(front)[scoped] == (front[i].user, front[i].response);
        assert LastUnder(calls, scoped, i);
      }
    }
  }

  /**
   Over every sequence of sets, a lookup answers from the last set under its
   scoped key, and only if the same user made it and it is younger than the TTL.
   */
  lemma {:induction false} LookupAnswersLastSet(calls: seq<Call>, ttl: nat, user: string, route: string, raw: string,
                                                now: int, i: int)
    requires LastUnder(calls, ScopedKey(user, route, raw), i)
    ensures Get(Exec(calls), ttl, user, route, raw, now)
            == if calls[i].user != user then Err(CrossUserCollision)
               else if now - calls[i].response.storedAt < ttl then Ok(Some(calls[i].response)) else Ok(None)
  {
    StoreHoldsLast(calls, ScopedKey(user, route, raw));
  }

  /** Users of one id length on routes without a colon, as for hashed API keys. */
  ghost predicate WellScoped(calls: seq<Call>, user: string, route: string) {
    ':' !in route && forall i :: 0 <= i < |calls| ==> |calls[i].user| == |user| && ':' !in calls[i].route
  }

  /** Call i is the last one by this user on this route with this key. */
  ghost predicate LastFor(calls: seq<Call>, user: string, route: string, raw: string, i: int) {
    && 0 <= i < |calls| && calls[i].For(user, route, raw)
    && forall j :: i < j < |calls| ==> !calls[j].For(user, route, raw)
  }

  /** For well-scoped callers the store is a map from (user, route, key) to the last response set there. */
  lemma StoreRefinesMap(calls: seq<Call>, ttl: nat, user: string, route: string, raw: string, now: int, i: int)
    requires WellScoped(calls, user, route) && LastFor(calls, user, route, raw, i)
    ensures Get(Exec(calls), ttl, user, route, raw, now)
            == Ok(if now - calls[i].response.storedAt < ttl then Some(calls[i].response) else None)
  {
    SameScopeSameCaller(calls, user, route, raw);
    LookupAnswersLastSet(calls, ttl, user, route, raw, now, i);
  }

  /** A triple that was never set has no response, and no collision either. */
  lemma NeverSetIsAbsent(calls: seq<Call>, ttl: nat, user: string, route: string, raw: string, now: int)
    requires WellScoped(calls, user, route) && forall i :: 0 <= i < |calls| ==> !calls[i].For(user, route, raw)
    ensures Get(Exec(calls), ttl, user, route, raw, now) == Ok(None)
  {
    SameScopeSameCaller(calls, user, route, raw);
    StoreHoldsLast(calls, ScopedKey(user, route, raw));
  }

  lemma SameScopeSameCaller(calls: seq<Call>, user: string, route: string, raw: string)
    requires WellScoped(calls, user, route)
    ensures forall i :: 0 <= i < |calls| ==>
              (calls[i].Scoped() == ScopedKey(user, route, raw) <==> calls[i].For(user, route, raw))
  {
    forall i | 0 <= i < |calls| && calls[i].Scoped() == ScopedKey(user, route, raw)
      ensures calls[i].For(user, route, raw)
    {
      ScopedKeyInjective(calls[i].user, calls[i].route, calls[i].raw, user, route, raw);
    }
  }

  // ---- The middleware ----

  datatype Response = Response(status: nat, body: seq<int>, contentType: Option<string>)

  datatype Cached = Cached(response: Response, owner: string, expiresAt: int)

  type Cache = map<string, Cached>

  function CacheKey(user: string, route: string, raw: string): string {
    "idempotency:v2:" + ScopedKey(user, route, raw)
  }

  /**
   A request with an idempotency key: who sends it where and when, what the handler
   would answer (none if its body cannot be read), and whether the cache is up.
   */
  datatype Request = Request(
    user: string, route: string, raw: string, now: int, handler: Option<Response>, readOk: bool, writeOk: bool)
  {
    function Key(): string { CacheKey(user, route, raw) }
  }

  datatype Reply = Replayed(response: Response) | Rejected | Executed(result: Option<Response>)

  predicate Success(status: nat) { 200 <= status < 300 }

  function Handle(cache: Cache, ttl: nat, q: Request): (Cache, Reply) {
    if q.readOk && q.Key() in cache && q.now < cache[q.Key()].expiresAt then
      if cache[q.Key()].owner != q.user then (cache, Rejected)
      else (cache, Replayed(cache[q.Key()].response))
    else if q.handler.Some? && Success(q.handler.value.status) && q.writeOk then
      (cache[q.Key() := Cached(q.handler.value, q.user, q.now + ttl)], Executed(q.handler))
    else (cache, Executed(q.handler))
  }

  class Middleware {
    const ttl: nat
    var cache: Cache

    constructor (ttl: nat)
      ensures this.ttl == ttl && cache == map[]
    {
      this.ttl, cache := ttl, map[];
    }

    method HandleRequest(q: Request) returns (reply: Reply)
      modifies this
      ensures (cache, reply) == Handle(old(cache), ttl, q)
    {
      var key := CacheKey(q.user, q.route, q.raw);
      if q.readOk && key in cache && q.now < cache[key].expiresAt {
        if cache[key].owner != q.user {
          return Rejected;
        }
        return Replayed(cache[key].response);
      }
      if q.handler.Some? && Success(q.handler.value.status) {
        if q.writeOk {
          cache := cache[key := Cached(q.handler.value, q.user, q.now + ttl)];
        }
      }
      return Executed(q.handler);
    }
  }

  /** Cache keys coincide exactly when their three parts run together to one text. */
  lemma CacheKeysCoincideIff(u1: string, r1: string, k1: string, u2: string, r2: string, k2: string)
    ensures CacheKey(u1, r1, k1) == CacheKey(u2, r2, k2) <==>
            u1 + ":" + r1 + ":" + k1 == u2 + ":" + r2 + ":" + k2
  {
    SamePrefix("idempotency:v2:", u1 + ":" + r1 + ":" + k1, u2 + ":" + r2 + ":" + k2);
  }

  /** Requests one after the other, from any cache, with a clock that never runs back. */
  ghost predicate Run(ttl: nat, caches: seq<Cache>, requests: seq<Request>, replies: seq<Reply>) {
    && |caches| == |requests| + 1 == |replies| + 1
    && (forall i :: 0 <= i < |requests| ==> (caches[i + 1], replies[i]) == Handle(caches[i], ttl, requests[i]))
    && (forall i, j :: 0 <= i < j < |requests| ==> requests[i].now <= requests[j].now)
  }

  /** Request i was executed with a 2xx response that was cached. */
  ghost predicate Recorded(requests: seq<Request>, replies: seq<Reply>, i: int) {
    && 0 <= i < |requests| && i < |replies|
    && replies[i].Executed? && replies[i].result.Some? && 200 <= replies[i].result.value.status < 300
    && requests[i].writeOk
  }

  lemma {:induction false} EntryStays(ttl: nat, caches: seq<Cache>, requests: seq<Request>, replies: seq<Reply>,
                                      i: nat, j: nat)
    requires Run(ttl, caches, requests, replies) && Recorded(requests, replies, i) && i < j < |caches|
    requires forall k :: i < k < j && requests[k].Key() == requests[i].Key() ==>
      requests[k].readOk && requests[k].now < requests[i].now + ttl
    ensures requests[i].Key() in caches[j]
    ensures caches[j][requests[i].Key()] == Cached(replies[i].result.value, requests[i].user, requests[i].now + ttl)
  {
    assert (caches[i + 1], replies[i]) == Handle(caches[i], ttl, requests[i]);
    if j > i + 1 {
      EntryStays(ttl, caches, requests, replies, i, j - 1);
      assert (caches[j - 1 + 1], replies[j - 1]) == Handle(caches[j - 1], ttl, requests[j - 1]);
    }
  }

  /**
   Within the window after a recorded 2xx execution, with the cache readable for that
   key, every request of that caller under it gets the same status, body and
   content type back and is not executed.
   */
  lemma WindowReplays(ttl: nat, caches: seq<Cache>, requests: seq<Request>, replies: seq<Reply>, i: nat, j: nat)
    requires Run(ttl, caches, requests, replies) && Recorded(requests, replies, i) && i < j < |requests|
    requires forall k :: i < k <= j && requests[k].Key() == requests[i].Key() ==> requests[k].readOk
    requires requests[j].Key() == requests[i].Key() && requests[j].now < requests[i].now + ttl
    ensures replies[j] == if requests[j].user == requests[i].user then Replayed(replies[i].result.value) else Rejected
  {
    EntryStays(ttl, caches, requests, replies, i, j);
    assert (caches[j + 1], replies[j]) == Handle(caches[j], ttl, requests[j]);
  }

  /** Hence two 2xx executions under one key are at least a window apart. */
  lemma OneExecutionPerWindow(ttl: nat, caches: seq<Cache>, requests: seq<Request>, replies: seq<Reply>, i: nat, j: nat)
    requires Run(ttl, caches, requests, replies) && i < j
    requires Recorded(requests, replies, i) && Recorded(requests, replies, j)
    requires forall k :: i < k <= j && requests[k].Key() == requests[i].Key() ==> requests[k].readOk
    requires requests[j].Key() == requests[i].Key()
    ensures requests[j].now >= requests[i].now + ttl
  {
    if requests[j].now < requests[i].now + ttl {
      WindowReplays(ttl, caches, requests, replies, i, j);
    }
  }

  /** Call i recorded the response and owner that a cache entry under `key` holds. */
  ghost predicate Origin(ttl: nat, requests: seq<Request>, replies: seq<Reply>, key: string, c: Cached, i: int) {
    && Recorded(requests, replies, i) && requests[i].Key() == key
    && c == Cached(replies[i].result.value, requests[i].user, requests[i].now + ttl)
  }

  lemma {:induction false} EntriesHaveOrigins(ttl: nat, caches: seq<Cache>, requests: seq<Request>,
                                              replies: seq<Reply>, j: nat, key: string)
    returns (i: nat)
    requires Run(ttl, caches, requests, replies) && caches[0] == map[] && j < |caches| && key in caches[j]
    ensures i < j && Origin(ttl, requests, replies, key, caches[j][key], i)
  {
    var p := j - 1;
    assert (caches[p + 1], replies[p]) == Handle(caches[p], ttl, requests[p]);
    if key in caches[p] && caches[p][key] == caches[j][key] {
      i := EntriesHaveOrigins(ttl, caches, requests, replies, p, key);
    } else {
      i := p;
    }
  }

  /**
   Nothing but a recorded 2xx response is ever replayed, to the caller identity that
   got it first, under the same key and within the window.
   */
  lemma ReplayHasOrigin(ttl: nat, caches: seq<Cache>, requests: seq<Request>, replies: seq<Reply>,
                        j: nat) returns (i: nat)
    requires Run(ttl, caches, requests, replies) && caches[0] == map[] && j < |replies| && replies[j].Replayed?
    ensures i < j && Recorded(requests, replies, i) && replies[j].response == replies[i].result.value
    ensures requests[i].Key() == requests[j].Key() && requests[i].user == requests[j].user
    ensures requests[j].now < requests[i].now + ttl
  {
    assert (caches[j + 1], replies[j]) == Handle(caches[j], ttl, requests[j]);
    i := EntriesHaveOrigins(ttl, caches, requests, replies, j, requests[j].Key());
  }

  /** A recorded execution leaves an entry that outlives its window. */
  lemma {:induction false} RecordedEntryLives(ttl: nat, caches: seq<Cache>, requests: seq<Request>, replies: seq<Reply>,
                                              i: nat, j: nat)
    requires Run(ttl, caches, requests, replies) && Recorded(requests, replies, i) && i < j < |caches|
    ensures requests[i].Key() in caches[j] && caches[j][requests[i].Key()].expiresAt >= requests[i].now + ttl
  {
    var p := j - 1;
    assert (caches[p + 1], replies[p]) == Handle(caches[p], ttl, requests[p]);
    if i < p {
      RecordedEntryLives(ttl, caches, requests, replies, i, p);
    }
  }

  /**
   A request is executed exactly when the cache cannot be read or no 2xx response was
   recorded under its key within the window before it. An executed request is
   answered with the handler's own response, 2xx or not.
   */
  lemma ExecutedIff(ttl: nat, caches: seq<Cache>, requests: seq<Request>, replies: seq<Reply>, j: nat)
    requires Run(ttl, caches, requests, replies) && caches[0] == map[] && j < |requests|
    ensures replies[j].Executed? <==>
            || !requests[j].readOk
            || forall i :: 0 <= i < j && Recorded(requests, replies, i) && requests[i].Key() == requests[j].Key() ==>
                 requests[j].now >= requests[i].now + ttl
    ensures replies[j].Executed? ==> replies[j].result == requests[j].handler
  {
    var key := requests[j].Key();
    assert (caches[j + 1], replies[j]) == Handle(caches[j], ttl, requests[j]);
    if key in caches[j] && requests[j].now < caches[j][key].expiresAt {
      var i := EntriesHaveOrigins(ttl, caches, requests, replies, j, key);
      assert Recorded(requests, replies, i);
    } else {
      forall i | 0 <= i < j && Recorded(requests, replies, i) && requests[i].Key() == key
        ensures requests[j].now >= requests[i].now + ttl
      {
        RecordedEntryLives(ttl, caches, requests, replies, i, j);
      }
    }
  }

  /** A request that is replayed, rejected or answered otherwise than 2xx leaves the cache as it was. */
  lemma OnlyRecordedChanges(ttl: nat, caches: seq<Cache>, requests: seq<Request>, replies: seq<Reply>, i: nat)
    requires Run(ttl, caches, requests, replies) && i < |requests|
    ensures !Recorded(requests, replies, i) ==> caches[i + 1] == caches[i]
    ensures Recorded(requests, replies, i) ==>
              requests[i].handler.Some?
              && caches[i + 1] == caches[i][requests[i].Key() :=
                   Cached(requests[i].handler.value, requests[i].user, requests[i].now + ttl)]
  {
    assert (caches[i + 1], replies[i]) == Handle(caches[i], ttl, requests[i]);
  }
}
