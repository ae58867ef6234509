/**
 The watched-transaction registry: an in-memory map with TTL eviction,
 deduplication and a cap, and its durable mirror in the database.
 */
module WatchRegistry {
  import opened Common

  type Watched = map<string, int>

  datatype WatchError = AlreadyWatched | CapReached

  datatype Limits = Limits(ttl: nat, cap: nat)

  /** The registry: each hash with the time it was first watched, and the size gauge. */
  datatype Registry = Registry(watched: Watched, gauge: int)

  /** Age at `now`; a monotonic clock never yields a negative one. */
  function Age(now: int, since: int): nat {
    if now >= since then now - since else 0
  }

  function Fresh(m: Watched, now: int, ttl: nat): Watched {
    map h | h in m && Age(now, m[h]) < ttl :: m[h]
  }

  function Watch(limits: Limits, r: Registry, hash: string, now: int): (Registry, Result<(), WatchError>) {
    var kept := Fresh(r.watched, now, limits.ttl);
    if hash in kept then (Registry(kept, |kept|), Err(AlreadyWatched))
    else if |kept| >= limits.cap then (Registry(kept, |kept|), Err(CapReached))
    else
      var m := kept[hash := now];
      (Registry(m, |m|), Ok(()))
  }

  function Resolve(r: Registry, hash: string): Registry {
    var m := r.watched - {hash};
    Registry(m, |m|)
  }

  /** Startup restore: no cap check and no gauge update. */
  function Restore(r: Registry, pending: set<string>, now: int): Registry {
    r.(watched := (map h | h in pending :: now) + r.watched)
  }

  /** Restoring hash by hash, keeping entries that are already there. */
  function RestoreEach(m: Watched, pending: seq<string>, now: int): Watched {
    if pending == [] then m
    else
      var k := |pending| - 1;
      var before := RestoreEach(m, pending[..k], now);
      if pending[k] in before then before else before[pending[k] := now]
  }

  lemma {:induction false} RestoreEachIs(m: Watched, pending: seq<string>, now: int)
    ensures RestoreEach(m, pending, now) == (map h | h in pending :: now) + m
  {
    if pending != [] {
      var k := |pending| - 1;
      RestoreEachIs(m, pending[..k], now);
      assert forall h :: h in pending <==> h in pending[..k] || h == pending[k];
    }
  }

  /** A restore adds what is pending and not there yet, with the current time; the rest and the gauge stay. */
  lemma RestoreAdds(r: Registry, pending: set<string>, now: int, h: string)
    ensures h in Restore(r, pending, now).watched <==> h in r.watched || h in pending
    ensures h in r.watched ==> Restore(r, pending, now).watched[h] == r.watched[h]
    ensures h in pending && h !in r.watched ==> Restore(r, pending, now).watched[h] == now
    ensures Restore(r, pending, now).gauge == r.gauge
  {
  }

  /** A status other than not found and pending ends the watch; a failed lookup does not. */
  predicate Settled(status: Option<string>) {
    status.Some? && status.value != "NOT_FOUND" && status.value != "PENDING"
  }

  function Monitored(r: Registry, hashes: seq<string>, status: string -> Option<string>): Registry {
    if hashes == [] then r
    else
      var k := |hashes| - 1;
      var before := Monitored(r, hashes[..k], status);
      if Settled(status(hashes[k])) then Resolve(before, hashes[k]) else before
  }

  /** The resolutions a pass writes: one for each settled hash, confirmed on success and expired otherwise. */
  function Resolutions(hashes: seq<string>, status: string -> Option<string>): seq<DbOp> {
    if hashes == [] then []
    else
      var k := |hashes| - 1;
      Resolutions(hashes[..k], status)
      + if Settled(status(hashes[k])) then [MarkResolved(hashes[k], status(hashes[k]).value == "SUCCESS")] else []
  }

  /** The answers that leave a transaction on watch. */
  ghost predicate StillOpen(status: Option<string>) {
    status == None || status == Some("NOT_FOUND") || status == Some("PENDING")
  }

  /** A pass ends the watch of exactly the asked hashes whose transaction the node knows as neither missing nor pending. */
  lemma WatchEndsIff(r: Registry, hashes: seq<string>, status: string -> Option<string>, h: string)
    ensures h in Monitored(r, hashes, status).watched <==>
            h in r.watched && (h in hashes ==> StillOpen(status(h)))
    ensures h in Monitored(r, hashes, status).watched ==> Monitored(r, hashes, status).watched[h] == r.watched[h]
  {
    MonitorRemovesSettled(r, hashes, status);
  }

  /** A pass starts a resolution for exactly the hashes whose watch it ends, once for each time it asks. */
  lemma {:induction false} ResolutionsAreSettled(hashes: seq<string>, status: string -> Option<string>, op: DbOp)
    ensures op in Resolutions(hashes, status) <==>
            && op.MarkResolved? && op.hash in hashes && !StillOpen(status(op.hash))
            && op.confirmed == (status(op.hash) == Some("SUCCESS"))
    ensures NoDuplicates(hashes) ==> NoDuplicates(Resolutions(hashes, status))
  {
    if hashes != [] {
      var k := |hashes| - 1;
      ResolutionsAreSettled(hashes[..k], status, op);
      assert forall h :: h in hashes <==> h in hashes[..k] || h == hashes[k];
      if NoDuplicates(hashes) {
        ResolutionsAreSettled(hashes[..k], status, MarkResolved(hashes[k], status(hashes[k]) == Some("SUCCESS")));
      }
    }
  }

  ghost function SettledIn(hashes: seq<string>, status: string -> Option<string>): set<string> {
    set h | h in hashes && Settled(status(h))
  }

  lemma SettledInAppend(hashes: seq<string>, status: string -> Option<string>)
    requires hashes != []
    ensures var k := |hashes| - 1;
            SettledIn(hashes, status)
            == SettledIn(hashes[..k], status) + if Settled(status(hashes[k])) then {hashes[k]} else {}
  {
  }

  /** A pass removes exactly the settled hashes, and its gauge is exact if it removed any. */
  lemma {:induction false} MonitorRemovesSettled(r: Registry, hashes: seq<string>, status: string -> Option<string>)
    ensures Monitored(r, hashes, status).watched == r.watched - SettledIn(hashes, status)
    ensures Monitored(r, hashes, status).gauge
            == if SettledIn(hashes, status) == {} then r.gauge else |Monitored(r, hashes, status).watched|
  {
    if hashes != [] {
      var k := |hashes| - 1;
      MonitorRemovesSettled(r, hashes[..k], status);
      SettledInAppend(hashes, status);
      RemoveTwice(r.watched, SettledIn(hashes[..k], status), {hashes[k]});
    }
  }

  class MonitoringState {
    const limits: Limits
    var watched: Watched
    var gauge: int

    constructor (limits: Limits)
      ensures this.limits == limits && Value() == Registry(map[], 0)
    {
      this.limits, watched, gauge := limits, map[], 0;
    }

    function Value(): Registry
      reads this
    {
      Registry(watched, gauge)
    }

    /** `spawned` is the database write the call starts in the background. */
    method WatchTransaction(hash: string, now: int, expiresAt: int)
      returns (r: Result<(), WatchError>, spawned: Option<DbOp>)
      modifies this`watched, this`gauge
      ensures (Value(), r) == Watch(limits, old(Value()), hash, now)
      ensures spawned == if r.Ok? then Some(Upsert(hash, expiresAt)) else None
    {
      watched := map h | h in watched && Age(now, watched[h]) < limits.ttl :: watched[h];
      if hash in watched {
        gauge := |watched|;
        return Err(AlreadyWatched), None;
      }
      if |watched| >= limits.cap {
        gauge := |watched|;
        return Err(CapReached), None;
      }
      watched := watched[hash := now];
      gauge := |watched|;
      return Ok(()), Some(Upsert(hash, expiresAt));
    }

    /**
     One pass of the transaction monitor over a snapshot of the watched hashes;
     `spawned` are the database writes it starts in the background.
     */
    method MonitorPass(hashes: seq<string>, status: string -> Option<string>) returns (spawned: seq<DbOp>)
      modifies this`watched, this`gauge
      ensures Value() == Monitored(old(Value()), hashes, status)
      ensures spawned == Resolutions(hashes, status)
    {
      spawned := [];
      for i := 0 to |hashes|
        invariant Value() == Monitored(old(Value()), hashes[..i], status)
        invariant spawned == Resolutions(hashes[..i], status)
      {
        assert hashes[..i + 1][..i] == hashes[..i];
        if Settled(status(hashes[i])) {
          watched := watched - {hashes[i]};
          gauge := |watched|;
          spawned := spawned + [MarkResolved(hashes[i], status(hashes[i]).value == "SUCCESS")];
        }
      }
      assert hashes[..|hashes|] == hashes;
    }

    method LoadWatchedTransactions(pending: seq<string>, now: int)
      modifies this`watched
      ensures Value() == Restore(old(Value()), (set h | h in pending), now)
    {
      if |pending| > 0 {
        for i := 0 to |pending|
          invariant watched == RestoreEach(old(watched), pending[..i], now)
        {
          assert pending[..i + 1][..i] == pending[..i];
          if pending[i] !in watched {
            watched := watched[pending[i] := now];
          }
        }
        assert pending[..|pending|] == pending;
      }
      RestoreEachIs(old(watched), pending, now);
    }
  }

  // ---- Runs of the in-memory registry ----

  datatype Step = Watching(hash: string, now: int) | Resolving(hash: string)

  function Apply(limits: Limits, r: Registry, step: Step): Registry {
    match step
    case Watching(hash, now) => Watch(limits, r, hash, now).0
    case Resolving(hash) => Resolve(r, hash)
  }

  /** Watch calls happen from `start` on, in order of time. */
  ghost predicate InOrder(steps: seq<Step>, start: int) {
    && (forall i :: 0 <= i < |steps| && steps[i].Watching? ==> steps[i].now >= start)
    && (forall i, j :: 0 <= i < j < |steps| && steps[i].Watching? && steps[j].Watching? ==> steps[i].now <= steps[j].now)
  }

  /** A run that starts with one restore of `pending` into an empty registry at time `start`. */
  ghost predicate Run(limits: Limits, pending: set<string>, start: int, states: seq<Registry>, steps: seq<Step>) {
    && |states| == |steps| + 1
    && states[0] == Restore(Registry(map[], 0), pending, start)
    && (forall i :: 0 < i < |states| ==> states[i] == Apply(limits, states[i - 1], steps[i - 1]))
    && InOrder(steps, start)
  }

  lemma SubmapSize(a: Watched, b: Watched)
    requires a.Keys <= b.Keys
    ensures |a| <= |b|
  {
    SubsetSize(a.Keys, b.Keys);
  }

  lemma StepSize(limits: Limits, r: Registry, step: Step)
    ensures |Apply(limits, r, step).watched| <= Max(limits.cap, |r.watched|)
    ensures Apply(limits, r, step).gauge == |Apply(limits, r, step).watched|
  {
    match step
    case Watching(hash, now) =>
      var kept := Fresh(r.watched, now, limits.ttl);
      SubmapSize(kept, r.watched);
      assert hash !in kept ==> |kept[hash := now]| == |kept| + 1;
    case Resolving(hash) => SubmapSize(r.watched - {hash}, r.watched);
  }

  /** One step of a run adds at most up to the cap and leaves the gauge exact. */
  lemma RunStep(limits: Limits, pending: set<string>, start: int, states: seq<Registry>, steps: seq<Step>, j: nat)
    requires Run(limits, pending, start, states, steps) && 0 < j < |states|
    ensures |states[j].watched| <= Max(limits.cap, |states[j - 1].watched|)
    ensures states[j].gauge == |states[j].watched|
  {
    StepSize(limits, states[j - 1], steps[j - 1]);
  }

  lemma RestoredSize(limits: Limits, pending: set<string>, start: int, states: seq<Registry>, steps: seq<Step>)
    requires Run(limits, pending, start, states, steps)
    ensures |states[0].watched| == |pending|
  {
    assert states[0].watched.Keys == pending && |states[0].watched| == |states[0].watched.Keys|;
  }

  /** The map never outgrows the larger of the cap and the number of restored hashes. */
  lemma {:induction false} SizeBound(limits: Limits, pending: set<string>, start: int,
                                     states: seq<Registry>, steps: seq<Step>, j: nat)
    requires Run(limits, pending, start, states, steps) && j < |states|
    ensures |states[j].watched| <= Max(limits.cap, |pending|)
  {
    if j == 0 {
      RestoredSize(limits, pending, start, states, steps);
    } else {
      SizeBound(limits, pending, start, states, steps, j - 1);
      RunStep(limits, pending, start, states, steps, j);
    }
  }

  /** Once the map is within the cap it stays there. */
  lemma {:induction false} StaysWithinCap(limits: Limits, pending: set<string>, start: int,
                                          states: seq<Registry>, steps: seq<Step>, i: nat, j: nat)
    requires Run(limits, pending, start, states, steps) && i <= j < |states| && |states[i].watched| <= limits.cap
    ensures |states[j].watched| <= limits.cap
  {
    if i < j {
      StaysWithinCap(limits, pending, start, states, steps, i, j - 1);
      RunStep(limits, pending, start, states, steps, j);
    }
  }

  /** The hashes whose entry is younger than the TTL. */
  ghost function Live(m: Watched, now: int, ttl: nat): set<string> {
    set h | h in m && Max(now - m[h], 0) < ttl
  }

  /**
   What a watch call does: it answers by what was live and how many, and afterwards the map
   holds exactly the live entries, each with its time, and the newly registered hash.
   */
  lemma WatchedAfter(limits: Limits, r: Registry, hash: string, now: int, h: string)
    ensures var live := Live(r.watched, now, limits.ttl);
            var (t, answer) := Watch(limits, r, hash, now);
            && (answer == Err(AlreadyWatched) <==> hash in live)
            && (answer == Err(CapReached) <==> hash !in live && |live| >= limits.cap)
            && (answer.Ok? <==> hash !in live && |live| < limits.cap)
            && (h in t.watched <==> h in live || (h == hash && answer.Ok?))
            && (h in live ==> t.watched[h] == r.watched[h])
            && (h == hash && answer.Ok? ==> t.watched[h] == now)
  {
    var kept := Fresh(r.watched, now, limits.ttl);
    assert kept.Keys == Live(r.watched, now, limits.ttl) && |kept| == |kept.Keys|;
  }

  lemma TimeStep(limits: Limits, r: Registry, step: Step, h: string)
    requires h in Apply(limits, r, step).watched
    ensures || (h in r.watched && Apply(limits, r, step).watched[h] == r.watched[h])
            || (step.Watching? && Apply(limits, r, step).watched[h] == step.now)
  {
  }

  /** In a run no entry is ahead of the clock. */
  lemma {:induction false} TimesPassed(limits: Limits, pending: set<string>, start: int,
                                       states: seq<Registry>, steps: seq<Step>, i: nat, h: string, now: int)
    requires Run(limits, pending, start, states, steps) && i < |states| && h in states[i].watched
    requires start <= now && forall k :: 0 <= k < i && steps[k].Watching? ==> steps[k].now <= now
    ensures states[i].watched[h] <= now
  {
    if i > 0 {
      assert states[i] == Apply(limits, states[i - 1], steps[i - 1]);
      TimeStep(limits, states[i - 1], steps[i - 1], h);
      if h in states[i - 1].watched {
        TimesPassed(limits, pending, start, states, steps, i - 1, h, now);
      }
    }
  }

  /**
   In a run an entry leaves the map in exactly two ways: it is resolved, or a watch
   call finds it as old as the TTL and does not register it anew.
   */
  lemma EntryLeavesIff(limits: Limits, pending: set<string>, start: int,
                       states: seq<Registry>, steps: seq<Step>, i: nat, h: string)
    requires Run(limits, pending, start, states, steps) && i < |steps| && h in states[i].watched
    ensures h !in states[i + 1].watched <==>
            || steps[i] == Resolving(h)
            || (&& steps[i].Watching? && steps[i].now - states[i].watched[h] >= limits.ttl
                && (steps[i].hash == h ==> |Live(states[i].watched, steps[i].now, limits.ttl)| >= limits.cap))
  {
    assert states[i + 1] == Apply(limits, states[i + 1 - 1], steps[i + 1 - 1]);
    if steps[i].Watching? {
      TimesPassed(limits, pending, start, states, steps, i, h, steps[i].now);
      WatchedAfter(limits, states[i], steps[i].hash, steps[i].now, h);
    }
  }

  /** A hash enters the map only by a watch call for it, at that time, while fewer entries than the cap are live. */
  lemma EntryEntersIff(limits: Limits, pending: set<string>, start: int,
                       states: seq<Registry>, steps: seq<Step>, i: nat, h: string)
    requires Run(limits, pending, start, states, steps) && i < |steps| && h !in states[i].watched
    ensures h in states[i + 1].watched <==>
            && steps[i].Watching? && steps[i].hash == h
            && |Live(states[i].watched, steps[i].now, limits.ttl)| < limits.cap
    ensures h in states[i + 1].watched ==> states[i + 1].watched[h] == steps[i].now
  {
    assert states[i + 1] == Apply(limits, states[i + 1 - 1], steps[i + 1 - 1]);
    if steps[i].Watching? {
      WatchedAfter(limits, states[i], steps[i].hash, steps[i].now, h);
    }
  }

  /** Hence an entry that is not resolved stays on watch, with its time, for the whole TTL, whatever else is watched. */
  lemma {:induction false} WatchLasts(limits: Limits, pending: set<string>, start: int,
                                      states: seq<Registry>, steps: seq<Step>, i: nat, j: nat, h: string)
    requires Run(limits, pending, start, states, steps) && i <= j < |states| && h in states[i].watched
    requires forall k :: i <= k < j ==> steps[k] != Resolving(h)
    requires forall k :: i <= k < j && steps[k].Watching? ==> steps[k].now < states[i].watched[h] + limits.ttl
    ensures h in states[j].watched && states[j].watched[h] == states[i].watched[h]
  {
    if i < j {
      WatchLasts(limits, pending, start, states, steps, i, j - 1, h);
      EntryLeavesIff(limits, pending, start, states, steps, j - 1, h);
      assert states[j] == Apply(limits, states[j - 1], steps[j - 1]);
      if steps[j - 1].Watching? {
        TimesPassed(limits, pending, start, states, steps, j - 1, h, steps[j - 1].now);
      }
      RenewalIsNow(limits, states[j - 1], steps[j - 1], h);
    }
  }

  /** The one way to a new timestamp: the entry reached its TTL and this call registers it anew. */
  predicate Renews(limits: Limits, r: Registry, step: Step, h: string) {
    step.Watching? && step.hash == h && h in r.watched && Age(step.now, r.watched[h]) >= limits.ttl
  }

  /** Unless a watch call finds it expired, a hash keeps its first-watched time while it is in the map. */
  lemma {:induction false} TimestampStable(limits: Limits, pending: set<string>, start: int,
                                           states: seq<Registry>, steps: seq<Step>, i: nat, j: nat, h: string)
    requires Run(limits, pending, start, states, steps) && i <= j < |states|
    requires forall k :: i <= k <= j ==> h in states[k].watched
    requires forall k :: i <= k < j ==> !Renews(limits, states[k], steps[k], h)
    ensures states[j].watched[h] == states[i].watched[h]
  {
    if i < j {
      TimestampStable(limits, pending, start, states, steps, i, j - 1, h);
      assert h in states[j - 1].watched && !Renews(limits, states[j - 1], steps[j - 1], h);
      assert states[j] == Apply(limits, states[j - 1], steps[j - 1]);
    }
  }

  /** A renewal is visible only as the current time. */
  lemma RenewalIsNow(limits: Limits, r: Registry, step: Step, h: string)
    requires h in r.watched && h in Apply(limits, r, step).watched
    ensures Renews(limits, r, step, h) ==> Apply(limits, r, step).watched[h] == step.now
    ensures !Renews(limits, r, step, h) ==> Apply(limits, r, step).watched[h] == r.watched[h]
  {
  }

  /**
   After every watch call all entries are younger than the TTL, for every registry,
   hash and time, exactly when the TTL is positive or the cap admits no entry.
   */
  lemma YoungAfterWatch(limits: Limits, r: Registry, hash: string, now: int)
    ensures (forall h :: h in Watch(limits, r, hash, now).0.watched ==>
               Age(now, Watch(limits, r, hash, now).0.watched[h]) < limits.ttl)
            <==> limits.ttl > 0 || limits.cap == 0
  {
    var t := Watch(limits, r, hash, now).0;
    if limits.ttl == 0 {
      assert Fresh(r.watched, now, limits.ttl) == map[];
      if limits.cap > 0 {
        assert hash in t.watched;
      }
    }
  }

  /** Watching a hash again while its entry lives is reported as such, even at the cap, and changes nothing. */
  lemma RewatchIsIdempotent(limits: Limits, r: Registry, hash: string, now: int, later: int)
    requires Watch(limits, r, hash, now).1.Ok? && now <= later && later - now < limits.ttl
    ensures var first := Watch(limits, r, hash, now).0;
            var (second, result) := Watch(limits, first, hash, later);
            && result == Err(AlreadyWatched)
            && hash in second.watched && second.watched[hash] == now
            && second.watched == Fresh(first.watched, later, limits.ttl)
  {
  }

  // ---- The durable mirror ----

  datatype Status = Pending | Confirmed | Expired

  datatype Row = Row(expiresAt: int, status: Status)

  type Table = map<string, Row>

  datatype DbOp = Upsert(hash: string, expiresAt: int) | MarkResolved(hash: string, confirmed: bool)

  /** The upsert keeps a status that is no longer pending; resolving updates only an existing row. */
  function ApplyDb(t: Table, op: DbOp): Table {
    match op
    case Upsert(h, expiresAt) => t[h := Row(expiresAt, if h in t then t[h].status else Pending)]
    case MarkResolved(h, confirmed) =>
      if h in t then t[h := t[h].(status := if confirmed then Confirmed else Expired)] else t
  }

  function Exec(t: Table, ops: seq<DbOp>): Table {
    if ops == [] then t else ApplyDb(Exec(t, ops[..|ops| - 1]), ops[|ops| - 1])
  }

  function LoadPending(t: Table, now: int): set<string> {
    set h | h in t && t[h].status == Pending && t[h].expiresAt > now
  }

  class WatchedTransactions {
    var rows: Table

    constructor ()
      ensures rows == map[]
    {
      rows := map[];
    }

    method TxUpsert(hash: string, expiresAt: int)
      modifies this
      ensures rows == ApplyDb(old(rows), Upsert(hash, expiresAt))
    {
      if hash in rows {
        var status := if rows[hash].status == Pending then Pending else rows[hash].status;
        rows := rows[hash := Row(expiresAt, status)];
      } else {
        rows := rows[hash := Row(expiresAt, Pending)];
      }
    }

    method TxMarkResolved(hash: string, confirmed: bool)
      modifies this
      ensures rows == ApplyDb(old(rows), MarkResolved(hash, confirmed))
    {
      if hash in rows {
        rows := rows[hash := rows[hash].(status := if confirmed then Confirmed else Expired)];
      }
    }

    method TxLoadPending(now: int) returns (hashes: set<string>)
      ensures hashes == LoadPending(rows, now)
    {
      hashes := set h | h in rows && rows[h].status == Pending && rows[h].expiresAt > now;
    }
  }

  ghost predicate UpsertAt(ops: seq<DbOp>, i: int, h: string) {
    0 <= i < |ops| && ops[i].Upsert? && ops[i].hash == h
  }

  ghost predicate ResolvedAt(ops: seq<DbOp>, i: int, h: string) {
    0 <= i < |ops| && ops[i].MarkResolved? && ops[i].hash == h
  }

  /** Some resolution of `h` ran after an upsert of `h`, so it found a row to update. */
  ghost predicate ResolutionStuck(ops: seq<DbOp>, h: string) {
    exists i, j :: i < j && UpsertAt(ops, i, h) && ResolvedAt(ops, j, h)
  }

  /** The expiry that the last upsert of `h` set. */
  ghost predicate LastExpiry(ops: seq<DbOp>, h: string, expiresAt: int) {
    exists i :: UpsertAt(ops, i, h) && ops[i].expiresAt == expiresAt && forall j :: i < j ==> !UpsertAt(ops, j, h)
  }

  /** The status that the last resolution of `h` stands for. */
  ghost predicate LastVerdict(ops: seq<DbOp>, h: string, status: Status) {
    exists i ::
      && ResolvedAt(ops, i, h) && status == (if ops[i].confirmed then Confirmed else Expired)
      && forall j :: i < j ==> !ResolvedAt(ops, j, h)
  }

  lemma {:induction false} RowHistory(ops: seq<DbOp>, h: string)
    ensures h in Exec(map[], ops) <==> exists i :: UpsertAt(ops, i, h)
    ensures h in Exec(map[], ops) ==>
              && (Exec(map[], ops)[h].status != Pending <==> ResolutionStuck(ops, h))
              && LastExpiry(ops, h, Exec(map[], ops)[h].expiresAt)
  {
    if ops == [] {
    } else {
      var n := |ops| - 1;
      var front := ops[..n];
      RowHistory(front, h);
      var before := Exec(map[], front);
      assert forall i :: UpsertAt(front, i, h) <==> i < n && UpsertAt(ops, i, h);
      assert forall i :: ResolvedAt(front, i, h) <==> i < n && ResolvedAt(ops, i, h);
      if ops[n].hash == h && ops[n].Upsert? {
        assert UpsertAt(ops, n, h);
      } else if ops[n].hash == h {
        assert ResolvedAt(ops, n, h);
        assert h in before ==> ResolutionStuck(ops, h);
      }
      assert ResolutionStuck(front, h) ==> ResolutionStuck(ops, h);
    }
  }

  /** A resolved row has the status that the last resolution stands for. */
  lemma {:induction false} ResolvedStatus(ops: seq<DbOp>, h: string)
    requires h in Exec(map[], ops) && Exec(map[], ops)[h].status != Pending
    ensures LastVerdict(ops, h, Exec(map[], ops)[h].status)
  {
    var n := |ops| - 1;
    var front := ops[..n];
    if ops[n].MarkResolved? && ops[n].hash == h {
      assert ResolvedAt(ops, n, h);
    } else {
      ResolvedStatus(front, h);
      assert forall i :: ResolvedAt(front, i, h) <==> ResolvedAt(ops, i, h);
    }
  }

  /**
   What a restart reloads, over every history of database writes in whatever
   order they ran: a hash is reloaded exactly when it was upserted, no
   resolution of it ever ran after an upsert, and its last expiry lies ahead.
   */
  lemma ReloadedIff(ops: seq<DbOp>, h: string, now: int)
    ensures h in LoadPending(Exec(map[], ops), now) <==>
            !ResolutionStuck(ops, h) && exists e :: e > now && LastExpiry(ops, h, e)
  {
    RowHistory(ops, h);
    forall e, e' | LastExpiry(ops, h, e) && LastExpiry(ops, h, e')
      ensures e == e'
    {
    }
  }

  /** A status that is no longer pending never becomes pending again. */
  lemma {:induction false} ResolvedForGood(t: Table, ops: seq<DbOp>, h: string)
    requires h in t && t[h].status != Pending
    ensures h in Exec(t, ops) && Exec(t, ops)[h].status != Pending
  {
    if ops != [] {
      ResolvedForGood(t, ops[..|ops| - 1], h);
    }
  }

  /**
   The two writes are spawned independently: when the resolution runs before the
   upsert it is lost, and the settled transaction is watched again after a restart.
   */
  lemma LateUpsertIsReloaded(h: string, confirmed: bool, expiresAt: int, now: int)
    requires now < expiresAt
    ensures h in LoadPending(Exec(map[], [MarkResolved(h, confirmed), Upsert(h, expiresAt)]), now)
  {
    var ops := [MarkResolved(h, confirmed), Upsert(h, expiresAt)];
    assert ops[..1] == [MarkResolved(h, confirmed)] && ops[..1][..0] == [];
    assert Exec(map[], ops[..1]) == map[];
  }
}
