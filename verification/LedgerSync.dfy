/**
 The ledger sync protocol: polling the chain behind a confirmation lag, two
 separately persisted checkpoints, restart recovery and event replay. The chain
 is a fixed log of events; RPC calls and cache writes may fail at any point,
 keys may expire at any time, and a suspected reorg purges every cached key.
 */
module LedgerSync {
  import opened Common
  import opened EventPaging

  type Store = map<string, ContractEvent>

  datatype Progress = Progress(eventsReplayed: nat, completed: bool)

  /** The keys under the chain prefix. */
  datatype Cache = Cache(
    cursor: Option<nat>,
    checkpoint: Option<nat>,
    lastSeen: Option<nat>,
    events: Store,
    progress: map<nat, Progress>)

  const EMPTY: Cache := Cache(None, None, None, map[], map[])

  /**
   `written` records every event that was ever put in the store and `reported`
   the highest ledger the node ever reported; the code keeps neither.
   */
  datatype State = State(cursor: nat, cache: Cache, written: set<ContractEvent>, reported: nat)

  /** Which keys vanish: by expiry, or by a purge that fails half way. */
  datatype Loss = Loss(cursor: bool, checkpoint: bool, lastSeen: bool, events: set<string>, progress: set<nat>)

  function Lose(c: Cache, l: Loss): Cache {
    Cache(
      if l.cursor then None else c.cursor,
      if l.checkpoint then None else c.checkpoint,
      if l.lastSeen then None else c.lastSeen,
      c.events - l.events,
      c.progress - l.progress)
  }

  /** What the environment answers during one iteration of the sync loop. */
  datatype PollInput = PollInput(
    latest: Option<nat>,
    lastSeenRead: bool,
    purgeFails: Option<Loss>,
    lastSeenWrite: Write,
    eventWrites: nat -> Write,
    cursorWrite: Write,
    checkpointWrite: Write)

  datatype RestartInput = RestartInput(cursorRead: bool, checkpointRead: bool, latest: Option<nat>)

  datatype ReplayInput = ReplayInput(
    progressRead: bool,
    latest: Option<nat>,
    eventWrites: nat -> Write,
    progressWrite: Write)

  function Put(s: State, e: ContractEvent, w: Write): State {
    if w.Landed() then s.(cache := s.cache.(events := s.cache.events[e.id := e]), written := s.written + {e}) else s
  }

  /** Stores events in order and stops at the first write that reports failure. */
  function StoreEvents(s: State, events: seq<ContractEvent>, writes: nat -> Write): (State, bool) {
    if events == [] then (s, true)
    else
      var k := |events| - 1;
      var (before, ok) := StoreEvents(s, events[..k], writes);
      if ok then (Put(before, events[k], writes(k)), writes(k).Stored?) else (before, false)
  }

  /** Does the reported ledger fall behind the last one seen? The sum wraps at 32 bits. */
  predicate LooksReorganised(lag: nat, c: Cache, latest: nat) {
    var previous := c.lastSeen.GetOr(0);
    previous > 0 && (latest + lag) % U32 < previous
  }

  function HandleReorg(lag: nat, s: State, latest: nat, input: PollInput): (State, bool) {
    if !input.lastSeenRead then (s, false)
    else if LooksReorganised(lag, s.cache, latest) && input.purgeFails.Some? then
      (s.(cache := Lose(s.cache, input.purgeFails.value)), false)
    else
      var c := if LooksReorganised(lag, s.cache, latest) then EMPTY else s.cache;
      (s.(cache := if input.lastSeenWrite.Landed() then c.(lastSeen := Some(latest)) else c),
       input.lastSeenWrite.Stored?)
  }

  function ConfirmedTip(lag: nat, latest: nat): nat {
    if latest >= lag then latest - lag else 0
  }

  function Report(s: State, latest: Option<nat>): State {
    if latest.Some? && latest.value > s.reported then s.(reported := latest.value) else s
  }

  /** One sync attempt: the new cursor, or none on error. `fetched` is the outcome of the event fetch. */
  function SyncOnce(lag: nat, s: State, input: PollInput, fetched: Option<seq<ContractEvent>>): (State, Option<nat>) {
    var latest := input.latest.GetOr(s.cursor);
    var (r, ok) := HandleReorg(lag, Report(s, input.latest), latest, input);
    if !ok then (r, None)
    else if ConfirmedTip(lag, latest) <= s.cursor then (r, Some(s.cursor))
    else if fetched.None? then (r, None)
    else
      var (t, stored) := StoreEvents(r, fetched.value, input.eventWrites);
      (t, if stored then Some(ConfirmedTip(lag, latest)) else None)
  }

  /** One iteration of the sync loop. */
  function Poll(lag: nat, s: State, input: PollInput, fetched: Option<seq<ContractEvent>>): State {
    var (t, next) := SyncOnce(lag, s, input, fetched);
    if next.Some? && next.value > t.cursor then
      t.(cursor := next.value,
         cache := t.cache.(
           cursor := if input.cursorWrite.Landed() then next else t.cache.cursor,
           checkpoint := if input.checkpointWrite.Landed() then next else t.cache.checkpoint))
    else t
  }

  /** Where the loop starts after a restart of the process. */
  function StartCursor(c: Cache, input: RestartInput): nat {
    var stored := if input.cursorRead then c.cursor.GetOr(0) else 0;
    if stored > 0 && input.checkpointRead && c.checkpoint.Some? && input.latest.Some?
       && input.latest.value > c.checkpoint.value + 1
    then c.checkpoint.value else stored
  }

  function UpTo(events: seq<ContractEvent>, tip: nat): seq<ContractEvent> {
    if events == [] then []
    else
      var k := |events| - 1;
      UpTo(events[..k], tip) + (if events[k].ledger <= tip then [events[k]] else [])
  }

  predicate ReplayDone(s: State, from: nat) {
    from in s.cache.progress && s.cache.progress[from].completed
  }

  /** Records the completion of a replay that fetched `count` events, if all writes succeeded. */
  function FinishReplay(s: State, stored: bool, from: nat, count: nat, w: Write): (State, Option<Progress>) {
    var done := Progress(count, true);
    if !stored then (s, None)
    else
      (if w.Landed() then s.(cache := s.cache.(progress := s.cache.progress[from := done])) else s,
       if w.Stored? then Some(done) else None)
  }

  /** Replays events from a ledger on; a cached completed run short-cuts everything. */
  function Replay(lag: nat, s: State, from: nat, input: ReplayInput, fetched: Option<seq<ContractEvent>>)
    : (State, Option<Progress>)
  {
    if !input.progressRead then (s, None)
    else if ReplayDone(s, from) then (s, Some(s.cache.progress[from]))
    else if input.latest.None? then (s, None)
    else
      var r := Report(s, input.latest);
      if fetched.None? then (r, None)
      else
        var confirmed := UpTo(fetched.value, ConfirmedTip(lag, input.latest.value));
        var (t, stored) := StoreEvents(r, confirmed, input.eventWrites);
        FinishReplay(t, stored, from, |fetched.value|, input.progressWrite)
  }

  datatype Step =
    | Polled(poll: PollInput, fetched: Option<seq<ContractEvent>>)
    | Restarted(restart: RestartInput)
    | Expired(loss: Loss)
    | Replayed(from: nat, replay: ReplayInput, fetched: Option<seq<ContractEvent>>)
  {
    /** The ledger the node answers with when the step asks for it. */
    function Answered(): Option<nat> {
      match this
      case Polled(input, _) => input.latest
      case Restarted(input) => input.latest
      case Expired(_) => None
      case Replayed(_, input, _) => input.latest
    }
  }

  function Apply(lag: nat, s: State, step: Step): State {
    match step
    case Polled(input, fetched) => Poll(lag, s, input, fetched)
    case Restarted(input) => Report(s, input.latest).(cursor := StartCursor(s.cache, input))
    case Expired(loss) => s.(cache := Lose(s.cache, loss))
    case Replayed(from, input, fetched) => Replay(lag, s, from, input, fetched).0
  }

  // ---- Assumptions on the environment ----

  /** Every chain event carries a distinct id and a 32-bit ledger number from 1 on. */
  ghost predicate WellFormedChain(chain: seq<RawEvent>) {
    && UniqueIds(chain)
    && AllHaveIds(chain)
    && forall i :: 0 <= i < |chain| ==> chain[i].ledger.Some? && 1 <= chain[i].ledger.value < U32
  }

  /** The first `v` chain events include everything up to ledger `latest`. */
  ghost predicate Serves(chain: seq<RawEvent>, v: nat, latest: nat) {
    v <= |chain| && forall i :: v <= i < |chain| ==> chain[i].ledger.GetOr(0) > latest
  }

  /** A fetch after ledger `latest` was reported: it fails, or returns all it should. */
  ghost predicate FetchedAfter(chain: seq<RawEvent>, latest: nat, start: nat, fetched: Option<seq<ContractEvent>>) {
    fetched.Some? ==>
      exists v: nat :: Serves(chain, v, latest) && fetched.value == DecodeAll(Matching(chain[..v], start))
  }

  ghost predicate Enabled(chain: seq<RawEvent>, s: State, step: Step) {
    match step
    case Polled(input, fetched) =>
      input.latest.Some? ==>
        input.latest.value < U32 && FetchedAfter(chain, input.latest.value, s.cursor + 1, fetched)
    case Restarted(input) => input.latest.Some? ==> input.latest.value < U32
    case Expired(_) => true
    case Replayed(from, input, fetched) =>
      input.latest.Some? ==>
        input.latest.value < U32 && FetchedAfter(chain, input.latest.value, from, fetched)
  }

  // ---- The invariant ----

  ghost predicate Covered(chain: seq<RawEvent>, written: set<ContractEvent>, c: nat) {
    forall i :: 0 <= i < |chain| && chain[i].ledger.GetOr(0) <= c ==> Decode(chain[i]) in written
  }

  /** A cursor value that is safe to resume from. */
  ghost predicate Resumable(chain: seq<RawEvent>, lag: nat, s: State, c: nat) {
    Covered(chain, s.written, c) && (c == 0 || c + lag <= s.reported)
  }

  ghost predicate StoreFromChain(chain: seq<RawEvent>, s: State) {
    && (forall e :: e in s.written ==> e in DecodeAll(chain))
    && (forall id :: id in s.cache.events ==> s.cache.events[id] in s.written && s.cache.events[id].id == id)
  }

  ghost predicate Inv(chain: seq<RawEvent>, lag: nat, s: State) {
    && s.reported < U32
    && Resumable(chain, lag, s, s.cursor)
    && Resumable(chain, lag, s, s.cache.cursor.GetOr(0))
    && Resumable(chain, lag, s, s.cache.checkpoint.GetOr(0))
    && StoreFromChain(chain, s)
  }

  lemma {:induction false} StoreEventsEffect(s: State, events: seq<ContractEvent>, writes: nat -> Write)
    ensures var (t, ok) := StoreEvents(s, events, writes);
            && t == s.(cache := s.cache.(events := t.cache.events), written := t.written)
            && s.written <= t.written <= s.written + (set e | e in events)
            && (ok ==> t.written == s.written + (set e | e in events))
  {
    if events != [] {
      StoreEventsEffect(s, events[..|events| - 1], writes);
      assert events == events[..|events| - 1] + [events[|events| - 1]];
    }
  }

  lemma {:induction false} StoreEventsFromChain(chain: seq<RawEvent>, s: State, events: seq<ContractEvent>,
                                                writes: nat -> Write)
    requires StoreFromChain(chain, s) && forall e :: e in events ==> e in DecodeAll(chain)
    ensures StoreFromChain(chain, StoreEvents(s, events, writes).0)
  {
    if events != [] {
      StoreEventsFromChain(chain, s, events[..|events| - 1], writes);
    }
  }

  lemma DecodedMember(s: seq<RawEvent>, x: RawEvent)
    requires x in s
    ensures Decode(x) in DecodeAll(s)
  {
    var i :| 0 <= i < |s| && s[i] == x;
    assert DecodeAll(s)[i] == Decode(x);
  }

  lemma DecodedPreimage(s: seq<RawEvent>, e: ContractEvent) returns (x: RawEvent)
    requires e in DecodeAll(s)
    ensures x in s && Decode(x) == e
  {
    var i :| 0 <= i < |s| && DecodeAll(s)[i] == e;
    x := s[i];
  }

  lemma FetchedOnChain(chain: seq<RawEvent>, v: nat, start: nat, e: ContractEvent)
    requires WellFormedChain(chain) && v <= |chain| && e in DecodeAll(Matching(chain[..v], start))
    ensures e in DecodeAll(chain) && e.ledger >= start
  {
    var x := DecodedPreimage(Matching(chain[..v], start), e);
    MatchingMembers(chain[..v], start, x);
    assert x in chain;
    DecodedMember(chain, x);
  }

  lemma ServedIsFetched(chain: seq<RawEvent>, v: nat, start: nat, i: nat)
    requires i < v <= |chain| && start <= chain[i].ledger.GetOr(0)
    ensures Decode(chain[i]) in DecodeAll(Matching(chain[..v], start))
  {
    assert chain[..v][i] == chain[i];
    MatchingMembers(chain[..v], start, chain[i]);
    DecodedMember(Matching(chain[..v], start), chain[i]);
  }

  /** Fetched events are chain events, and they include every chain event from `start` to `latest`. */
  lemma FetchedIsComplete(chain: seq<RawEvent>, latest: nat, start: nat, fetched: seq<ContractEvent>)
    requires WellFormedChain(chain) && FetchedAfter(chain, latest, start, Some(fetched))
    ensures forall e :: e in fetched ==> e in DecodeAll(chain) && e.ledger >= start
    ensures forall i :: 0 <= i < |chain| && start <= chain[i].ledger.GetOr(0) <= latest ==> Decode(chain[i]) in fetched
  {
    var v: nat :| Serves(chain, v, latest) && fetched == DecodeAll(Matching(chain[..v], start));
    forall e | e in fetched
      ensures e in DecodeAll(chain) && e.ledger >= start
    {
      FetchedOnChain(chain, v, start, e);
    }
    forall i | 0 <= i < |chain| && start <= chain[i].ledger.GetOr(0) <= latest
      ensures Decode(chain[i]) in fetched
    {
      ServedIsFetched(chain, v, start, i);
    }
  }

  /** `d` holds no checkpoint or event that `c` does not hold. */
  ghost predicate Shrunk(c: Cache, d: Cache) {
    && (d.cursor.None? || d.cursor == c.cursor)
    && (d.checkpoint.None? || d.checkpoint == c.checkpoint)
    && (forall id :: id in d.events ==> id in c.events && d.events[id] == c.events[id])
  }

  /** Losing keys keeps the invariant. */
  lemma ShrunkCacheKeepsInv(chain: seq<RawEvent>, lag: nat, s: State, d: Cache)
    requires WellFormedChain(chain) && Inv(chain, lag, s) && Shrunk(s.cache, d)
    ensures Inv(chain, lag, s.(cache := d))
  {
  }

  lemma ReportKeepsInv(chain: seq<RawEvent>, lag: nat, s: State, latest: Option<nat>)
    requires Inv(chain, lag, s) && (latest.Some? ==> latest.value < U32)
    ensures Inv(chain, lag, Report(s, latest))
    ensures latest.Some? ==> latest.value <= Report(s, latest).reported
  {
  }

  lemma ReorgKeepsInv(chain: seq<RawEvent>, lag: nat, s: State, latest: nat, input: PollInput)
    requires Inv(chain, lag, s) && WellFormedChain(chain)
    ensures var t := HandleReorg(lag, s, latest, input).0;
            Inv(chain, lag, t) && t.cursor == s.cursor && t.written == s.written && t.reported == s.reported
  {
    ShrunkCacheKeepsInv(chain, lag, s, HandleReorg(lag, s, latest, input).0.cache);
  }

  /** Everything up to the cursor plus everything fetched after it covers the reported ledgers. */
  lemma CoverageExtends(chain: seq<RawEvent>, written: set<ContractEvent>, cursor: nat, latest: nat,
                        fetched: seq<ContractEvent>)
    requires WellFormedChain(chain) && Covered(chain, written, cursor)
    requires FetchedAfter(chain, latest, cursor + 1, Some(fetched))
    ensures Covered(chain, written + (set e | e in fetched), latest)
  {
    FetchedIsComplete(chain, latest, cursor + 1, fetched);
  }

  lemma {:induction false} StoringKeepsInv(chain: seq<RawEvent>, lag: nat, s: State, events: seq<ContractEvent>,
                                           writes: nat -> Write)
    requires Inv(chain, lag, s) && forall e :: e in events ==> e in DecodeAll(chain)
    ensures Inv(chain, lag, StoreEvents(s, events, writes).0)
  {
    StoreEventsEffect(s, events, writes);
    StoreEventsFromChain(chain, s, events, writes);
  }

  /** Storing a complete fetch makes the confirmed tip safe to resume from. */
  lemma StoringCovers(chain: seq<RawEvent>, lag: nat, s: State, latest: nat, fetched: seq<ContractEvent>,
                      writes: nat -> Write)
    requires WellFormedChain(chain) && Inv(chain, lag, s) && latest <= s.reported
    requires FetchedAfter(chain, latest, s.cursor + 1, Some(fetched))
    requires StoreEvents(s, fetched, writes).1
    ensures Resumable(chain, lag, StoreEvents(s, fetched, writes).0, ConfirmedTip(lag, latest))
  {
    StoreEventsEffect(s, fetched, writes);
    CoverageExtends(chain, s.written, s.cursor, latest, fetched);
  }

  lemma StoringFetched(chain: seq<RawEvent>, lag: nat, s: State, latest: nat, fetched: seq<ContractEvent>,
                       writes: nat -> Write)
    requires WellFormedChain(chain) && Inv(chain, lag, s) && latest <= s.reported
    requires FetchedAfter(chain, latest, s.cursor + 1, Some(fetched))
    ensures var (t, ok) := StoreEvents(s, fetched, writes);
            && Inv(chain, lag, t) && t.cursor == s.cursor
            && (ok ==> Resumable(chain, lag, t, ConfirmedTip(lag, latest)))
  {
    FetchedIsComplete(chain, latest, s.cursor + 1, fetched);
    StoreEventsEffect(s, fetched, writes);
    StoringKeepsInv(chain, lag, s, fetched, writes);
    if StoreEvents(s, fetched, writes).1 {
      StoringCovers(chain, lag, s, latest, fetched, writes);
    }
  }

  lemma SyncOnceKeepsInv(chain: seq<RawEvent>, lag: nat, s: State, input: PollInput,
                         fetched: Option<seq<ContractEvent>>)
    requires WellFormedChain(chain) && Inv(chain, lag, s) && Enabled(chain, s, Polled(input, fetched))
    ensures var (t, next) := SyncOnce(lag, s, input, fetched);
            && Inv(chain, lag, t) && t.cursor == s.cursor
            && (next.Some? ==> Resumable(chain, lag, t, next.value))
  {
    var latest := input.latest.GetOr(s.cursor);
    var q := Report(s, input.latest);
    ReportKeepsInv(chain, lag, s, input.latest);
    ReorgKeepsInv(chain, lag, q, latest, input);
    var r := HandleReorg(lag, q, latest, input).0;
    if ConfirmedTip(lag, latest) > s.cursor && fetched.Some? {
      StoringFetched(chain, lag, r, latest, fetched.value, input.eventWrites);
    }
  }

  lemma PollKeepsInv(chain: seq<RawEvent>, lag: nat, s: State, input: PollInput, fetched: Option<seq<ContractEvent>>)
    requires WellFormedChain(chain) && Inv(chain, lag, s) && Enabled(chain, s, Polled(input, fetched))
    ensures Inv(chain, lag, Poll(lag, s, input, fetched))
    ensures Poll(lag, s, input, fetched).cursor >= s.cursor
  {
    SyncOnceKeepsInv(chain, lag, s, input, fetched);
  }

  lemma {:induction false} UpToMembers(events: seq<ContractEvent>, tip: nat, e: ContractEvent)
    ensures e in UpTo(events, tip) <==> e in events && e.ledger <= tip
  {
    if events != [] {
      UpToMembers(events[..|events| - 1], tip, e);
      assert events == events[..|events| - 1] + [events[|events| - 1]];
    }
  }

  lemma ReplayKeepsInv(chain: seq<RawEvent>, lag: nat, s: State, from: nat, input: ReplayInput,
                       fetched: Option<seq<ContractEvent>>)
    requires WellFormedChain(chain) && Inv(chain, lag, s) && Enabled(chain, s, Replayed(from, input, fetched))
    ensures Inv(chain, lag, Replay(lag, s, from, input, fetched).0)
    ensures Replay(lag, s, from, input, fetched).0.cursor == s.cursor
  {
    if input.latest.Some? && fetched.Some? {
      var tip := ConfirmedTip(lag, input.latest.value);
      var kept := UpTo(fetched.value, tip);
      var r := Report(s, input.latest);
      ReportKeepsInv(chain, lag, s, input.latest);
      KeptRange(chain, input.latest.value, from, fetched.value, tip);
      StoreEventsEffect(r, kept, input.eventWrites);
      StoringKeepsInv(chain, lag, r, kept, input.eventWrites);
    }
  }

  lemma StepKeepsInv(chain: seq<RawEvent>, lag: nat, s: State, step: Step)
    requires WellFormedChain(chain) && Inv(chain, lag, s) && Enabled(chain, s, step)
    ensures Inv(chain, lag, Apply(lag, s, step))
    ensures !step.Restarted? ==> Apply(lag, s, step).cursor >= s.cursor
  {
    match step
    case Polled(input, fetched) => PollKeepsInv(chain, lag, s, input, fetched);
    case Restarted(input) =>
    case Expired(loss) => ShrunkCacheKeepsInv(chain, lag, s, Lose(s.cache, loss));
    case Replayed(from, input, fetched) => ReplayKeepsInv(chain, lag, s, from, input, fetched);
  }

  // ---- Whole runs ----

  /** A run of the service from a first deployment: one state more than steps. */
  ghost predicate Run(chain: seq<RawEvent>, lag: nat, states: seq<State>, steps: seq<Step>) {
    && |states| == |steps| + 1
    && states[0] == State(0, EMPTY, {}, 0)
    && forall i :: 0 <= i < |steps| ==>
         Enabled(chain, states[i], steps[i]) && states[i + 1] == Apply(lag, states[i], steps[i])
  }

  lemma {:induction false} RunKeepsInv(chain: seq<RawEvent>, lag: nat, states: seq<State>, steps: seq<Step>, i: nat)
    requires WellFormedChain(chain) && Run(chain, lag, states, steps) && i < |states|
    ensures Inv(chain, lag, states[i])
  {
    if i > 0 {
      RunKeepsInv(chain, lag, states, steps, i - 1);
      StepKeepsInv(chain, lag, states[i - 1], steps[i - 1]);
      assert states[i - 1 + 1] == Apply(lag, states[i - 1], steps[i - 1]);
    }
  }

  /**
   No event is skipped: in every run, whatever fails, expires, is purged or
   restarts, an event at or below any cursor the service could resume from was
   written to the store.
   */
  lemma NoEventSkipped(chain: seq<RawEvent>, lag: nat, states: seq<State>, steps: seq<Step>, i: nat, e: nat)
    requires WellFormedChain(chain) && Run(chain, lag, states, steps) && i < |states| && e < |chain|
    requires var s := states[i];
             chain[e].ledger.GetOr(0) <= Max(s.cursor, Max(s.cache.cursor.GetOr(0), s.cache.checkpoint.GetOr(0)))
    ensures exists w :: w in states[i].written && Describes(w, chain[e])
  {
    RunKeepsInv(chain, lag, states, steps, i);
    DecodeDescribes(chain[e]);
    assert Decode(chain[e]) in states[i].written;
  }

  ghost predicate Confirmed(lag: nat, s: State, c: nat) {
    (c == 0 || c + lag <= s.reported) && c + 1 < U32
  }

  /** No cursor passes the confirmed tip, so no 32-bit cursor arithmetic overflows. */
  lemma CursorsStayConfirmed(chain: seq<RawEvent>, lag: nat, states: seq<State>, steps: seq<Step>, i: nat)
    requires WellFormedChain(chain) && Run(chain, lag, states, steps) && i < |states| && lag >= 1
    ensures var s := states[i];
            && Confirmed(lag, s, s.cursor)
            && Confirmed(lag, s, s.cache.cursor.GetOr(0))
            && Confirmed(lag, s, s.cache.checkpoint.GetOr(0))
  {
    RunKeepsInv(chain, lag, states, steps, i);
  }

  /** The bound is a real one: the highest ledger reported is one that the node answered. */
  lemma {:induction false} ReportedWasAnswered(chain: seq<RawEvent>, lag: nat, states: seq<State>, steps: seq<Step>,
                                               i: nat)
    requires Run(chain, lag, states, steps) && i < |states|
    ensures states[i].reported == 0 || exists k :: 0 <= k < i && steps[k].Answered() == Some(states[i].reported)
  {
    if i > 0 {
      var p := i - 1;
      ReportedWasAnswered(chain, lag, states, steps, p);
      assert states[p + 1] == Apply(lag, states[p], steps[p]);
      StepReports(lag, states[p], steps[p]);
    }
  }

  lemma StepReports(lag: nat, s: State, step: Step)
    ensures Apply(lag, s, step).reported == s.reported || step.Answered() == Some(Apply(lag, s, step).reported)
    ensures (step.Polled? || step.Restarted?) ==> step.Answered().GetOr(0) <= Apply(lag, s, step).reported
  {
    match step
    case Polled(input, fetched) =>
      var r := HandleReorg(lag, Report(s, input.latest), input.latest.GetOr(s.cursor), input).0;
      if fetched.Some? {
        StoreEventsEffect(r, fetched.value, input.eventWrites);
      }
    case Restarted(input) =>
    case Expired(loss) =>
    case Replayed(from, input, fetched) =>
      if input.latest.Some? && fetched.Some? {
        var kept := UpTo(fetched.value, ConfirmedTip(lag, input.latest.value));
        StoreEventsEffect(Report(s, input.latest), kept, input.eventWrites);
      }
  }

  /** Between restarts the cursor never moves back. */
  lemma {:induction false} CursorMonotone(chain: seq<RawEvent>, lag: nat, states: seq<State>, steps: seq<Step>,
                                          i: nat, j: nat)
    requires WellFormedChain(chain) && Run(chain, lag, states, steps) && i <= j < |states|
    requires forall k :: i <= k < j ==> !steps[k].Restarted?
    ensures states[i].cursor <= states[j].cursor
  {
    if i < j {
      CursorMonotone(chain, lag, states, steps, i, j - 1);
      RunKeepsInv(chain, lag, states, steps, j - 1);
      StepKeepsInv(chain, lag, states[j - 1], steps[j - 1]);
      assert states[j - 1 + 1] == Apply(lag, states[j - 1], steps[j - 1]);
    }
  }

  /** A step that removes nothing from the cache. */
  ghost predicate Lossless(lag: nat, s: State, step: Step) {
    && !step.Expired?
    && (step.Polled? ==> !LooksReorganised(lag, s.cache, step.poll.latest.GetOr(s.cursor)))
  }

  /** The store holds every event ever written. */
  ghost predicate StoreComplete(s: State) {
    forall e :: e in s.written ==> e.id in s.cache.events && s.cache.events[e.id] == e
  }

  lemma {:induction false} StoreEventsComplete(chain: seq<RawEvent>, s: State, events: seq<ContractEvent>,
                                               writes: nat -> Write)
    requires WellFormedChain(chain) && StoreFromChain(chain, s) && StoreComplete(s)
    requires forall e :: e in events ==> e in DecodeAll(chain)
    ensures StoreComplete(StoreEvents(s, events, writes).0)
  {
    if events != [] {
      var k := |events| - 1;
      StoreEventsComplete(chain, s, events[..k], writes);
      StoreEventsFromChain(chain, s, events[..k], writes);
      var before := StoreEvents(s, events[..k], writes).0;
      forall e | e in before.written && e.id == events[k].id
        ensures e == events[k]
      {
        SameIdSameEvent(chain, e, events[k]);
      }
    }
  }

  lemma SameIdSameEvent(chain: seq<RawEvent>, a: ContractEvent, b: ContractEvent)
    requires WellFormedChain(chain) && a in DecodeAll(chain) && b in DecodeAll(chain) && a.id == b.id
    ensures a == b
  {
  }

  lemma LosslessPollKeepsStoreComplete(chain: seq<RawEvent>, lag: nat, s: State, input: PollInput,
                                       fetched: Option<seq<ContractEvent>>)
    requires WellFormedChain(chain) && Inv(chain, lag, s) && Enabled(chain, s, Polled(input, fetched))
    requires StoreComplete(s) && Lossless(lag, s, Polled(input, fetched))
    ensures StoreComplete(Poll(lag, s, input, fetched))
  {
    var latest := input.latest.GetOr(s.cursor);
    var r := HandleReorg(lag, Report(s, input.latest), latest, input).0;
    LosslessReorg(chain, lag, Report(s, input.latest), latest, input);
    if ConfirmedTip(lag, latest) > s.cursor && fetched.Some? {
      FetchedIsComplete(chain, latest, s.cursor + 1, fetched.value);
      StoreEventsComplete(chain, r, fetched.value, input.eventWrites);
    }
  }

  lemma LosslessReorg(chain: seq<RawEvent>, lag: nat, s: State, latest: nat, input: PollInput)
    requires !LooksReorganised(lag, s.cache, latest) && StoreComplete(s) && StoreFromChain(chain, s)
    ensures var r := HandleReorg(lag, s, latest, input).0;
            StoreComplete(r) && StoreFromChain(chain, r)
  {
  }

  lemma ReplayKeepsStoreComplete(chain: seq<RawEvent>, lag: nat, s: State, from: nat, input: ReplayInput,
                                 fetched: Option<seq<ContractEvent>>)
    requires WellFormedChain(chain) && Inv(chain, lag, s) && Enabled(chain, s, Replayed(from, input, fetched))
    requires StoreComplete(s)
    ensures StoreComplete(Replay(lag, s, from, input, fetched).0)
  {
    if input.latest.Some? && fetched.Some? {
      var tip := ConfirmedTip(lag, input.latest.value);
      KeptRange(chain, input.latest.value, from, fetched.value, tip);
      StoreEventsComplete(chain, Report(s, input.latest), UpTo(fetched.value, tip), input.eventWrites);
    }
  }

  lemma LosslessStepKeepsStoreComplete(chain: seq<RawEvent>, lag: nat, s: State, step: Step)
    requires WellFormedChain(chain) && Inv(chain, lag, s) && Enabled(chain, s, step)
    requires StoreComplete(s) && Lossless(lag, s, step)
    ensures StoreComplete(Apply(lag, s, step))
  {
    match step
    case Polled(input, fetched) => LosslessPollKeepsStoreComplete(chain, lag, s, input, fetched);
    case Restarted(input) =>
    case Expired(loss) =>
    case Replayed(from, input, fetched) => ReplayKeepsStoreComplete(chain, lag, s, from, input, fetched);
  }

  lemma {:induction false} LosslessRunStoreComplete(chain: seq<RawEvent>, lag: nat, states: seq<State>,
                                                    steps: seq<Step>, i: nat)
    requires WellFormedChain(chain) && Run(chain, lag, states, steps) && i < |states|
    requires forall k :: 0 <= k < i ==> Lossless(lag, states[k], steps[k])
    ensures StoreComplete(states[i])
  {
    if i > 0 {
      LosslessRunStoreComplete(chain, lag, states, steps, i - 1);
      RunKeepsInv(chain, lag, states, steps, i - 1);
      LosslessStepKeepsStoreComplete(chain, lag, states[i - 1], steps[i - 1]);
      assert states[i - 1 + 1] == Apply(lag, states[i - 1], steps[i - 1]);
    }
  }

  /**
   Storing is idempotent and order does not matter: two runs over one chain that
   wrote the same events, in whatever batches, order and number of times, by
   sync or replay, hold the same store unless keys were lost.
   */
  lemma SameWritesSameStore(chain: seq<RawEvent>, lag: nat,
                            states: seq<State>, steps: seq<Step>, i: nat,
                            states': seq<State>, steps': seq<Step>, j: nat)
    requires WellFormedChain(chain) && Run(chain, lag, states, steps) && Run(chain, lag, states', steps')
    requires i < |states| && j < |states'| && states[i].written == states'[j].written
    requires forall k :: 0 <= k < i ==> Lossless(lag, states[k], steps[k])
    requires forall k :: 0 <= k < j ==> Lossless(lag, states'[k], steps'[k])
    ensures states[i].cache.events == states'[j].cache.events
  {
    LosslessRunStoreComplete(chain, lag, states, steps, i);
    LosslessRunStoreComplete(chain, lag, states', steps', j);
    RunKeepsInv(chain, lag, states, steps, i);
    RunKeepsInv(chain, lag, states', steps', j);
  }

  /** In every run the store is a sub-map of the chain's own map from id to event. */
  lemma StoreIsFromChain(chain: seq<RawEvent>, lag: nat, states: seq<State>, steps: seq<Step>, i: nat, id: string)
    requires WellFormedChain(chain) && Run(chain, lag, states, steps) && i < |states| && id in states[i].cache.events
    ensures exists k :: 0 <= k < |chain| && chain[k].id == Some(id) && Describes(states[i].cache.events[id], chain[k])
  {
    RunKeepsInv(chain, lag, states, steps, i);
    var e := states[i].cache.events[id];
    var k :| 0 <= k < |chain| && DecodeAll(chain)[k] == e;
    DecodeDescribes(chain[k]);
  }

  /** Whatever was lost on the way, two stores over one chain agree on every id that both hold. */
  lemma StoresAgree(chain: seq<RawEvent>, lag: nat, lag': nat,
                    states: seq<State>, steps: seq<Step>, i: nat,
                    states': seq<State>, steps': seq<Step>, j: nat, id: string)
    requires WellFormedChain(chain) && Run(chain, lag, states, steps) && Run(chain, lag', states', steps')
    requires i < |states| && j < |states'| && id in states[i].cache.events && id in states'[j].cache.events
    ensures states[i].cache.events[id] == states'[j].cache.events[id]
  {
    StoreIsFromChain(chain, lag, states, steps, i, id);
    StoreIsFromChain(chain, lag', states', steps', j, id);
  }

  // ---- What moves the cursor, and what a poll leaves in the store ----

  lemma {:induction false} AllWritesStored(s: State, events: seq<ContractEvent>, writes: nat -> Write)
    requires forall k :: 0 <= k < |events| ==> writes(k).Stored?
    ensures StoreEvents(s, events, writes).1
  {
    if events != [] {
      AllWritesStored(s, events[..|events| - 1], writes);
    }
  }

  /** A write that reports failure ends the batch: later events change nothing. */
  lemma {:induction false} FailedPrefix(s: State, events: seq<ContractEvent>, writes: nat -> Write, n: nat)
    requires n <= |events| && !StoreEvents(s, events[..n], writes).1
    ensures StoreEvents(s, events, writes) == StoreEvents(s, events[..n], writes)
  {
    if n == |events| {
      assert events[..n] == events;
    } else {
      var shorter := events[..|events| - 1];
      assert shorter[..n] == events[..n];
      FailedPrefix(s, shorter, writes, n);
    }
  }

  /** The store keeps events up to the first write that fails; that one may have landed. */
  lemma StoreEventsStops(s: State, events: seq<ContractEvent>, writes: nat -> Write, n: nat)
    requires n <= |events| && (n < |events| ==> !writes(n).Stored?)
    requires forall k :: 0 <= k < n ==> writes(k).Stored?
    ensures var (t, ok) := StoreEvents(s, events, writes);
            && (ok <==> n == |events|)
            && t.written == s.written + (set e | e in events[..n])
                            + if n < |events| && writes(n) == Failed(true) then {events[n]} else {}
  {
    AllWritesStored(s, events[..n], writes);
    StoreEventsEffect(s, events[..n], writes);
    if n < |events| {
      assert events[..n + 1][..n] == events[..n];
      FailedPrefix(s, events, writes, n + 1);
    } else {
      assert events[..n] == events;
    }
  }

  lemma {:induction false} FirstFailure(writes: nat -> Write, count: nat) returns (n: nat)
    ensures n <= count && (n < count ==> !writes(n).Stored?)
    ensures forall k :: 0 <= k < n ==> writes(k).Stored?
  {
    if count == 0 {
      n := 0;
    } else {
      n := FirstFailure(writes, count - 1);
      if n == count - 1 && writes(n).Stored? {
        n := count;
      }
    }
  }

  lemma StoresAllIff(s: State, events: seq<ContractEvent>, writes: nat -> Write)
    ensures StoreEvents(s, events, writes).1 <==> forall k :: 0 <= k < |events| ==> writes(k).Stored?
  {
    var n := FirstFailure(writes, |events|);
    StoreEventsStops(s, events, writes, n);
  }

  /** The reported ledger plus the lag, in 32 bits, falls behind the last ledger seen. */
  ghost predicate Suspicious(lag: nat, c: Cache, latest: nat) {
    (latest + lag) % 0x1_0000_0000 < c.lastSeen.GetOr(0)
  }

  /** The ledger check of a poll goes through. */
  ghost predicate CheckPasses(lag: nat, s: State, latest: nat, input: PollInput) {
    && input.lastSeenRead && input.lastSeenWrite.Stored?
    && (Suspicious(lag, s.cache, latest) ==> input.purgeFails.None?)
  }

  /**
   The cursor moves exactly when the node reports a ledger more than the lag ahead,
   the ledger check goes through, the fetch succeeds and every event is stored.
   */
  lemma CursorMovesIff(lag: nat, s: State, input: PollInput, fetched: Option<seq<ContractEvent>>)
    ensures Poll(lag, s, input, fetched).cursor != s.cursor <==>
            && input.latest.Some? && input.latest.value > s.cursor + lag
            && CheckPasses(lag, s, input.latest.value, input)
            && fetched.Some? && forall k :: 0 <= k < |fetched.value| ==> input.eventWrites(k).Stored?
  {
    var latest := input.latest.GetOr(s.cursor);
    var r := HandleReorg(lag, Report(s, input.latest), latest, input).0;
    if fetched.Some? {
      StoresAllIff(r, fetched.value, input.eventWrites);
      StoreEventsEffect(r, fetched.value, input.eventWrites);
    }
  }

  /** A value the poll may overwrite: the new one if its write lands, else the old one unless purged. */
  ghost predicate Updated(before: Option<nat>, after: Option<nat>, purged: bool, w: Write, value: nat) {
    after == if w == Failed(false) then (if purged then None else before) else Some(value)
  }

  /** When the cursor moves, it moves to the reported ledger minus the lag, and each checkpoint follows its own write. */
  lemma MovedCursor(lag: nat, s: State, input: PollInput, fetched: Option<seq<ContractEvent>>)
    requires Poll(lag, s, input, fetched).cursor != s.cursor
    ensures var t := Poll(lag, s, input, fetched);
            var latest := input.latest.GetOr(0);
            var purged := Suspicious(lag, s.cache, latest);
            && t.cursor == latest - lag
            && Updated(s.cache.cursor, t.cache.cursor, purged, input.cursorWrite, latest - lag)
            && Updated(s.cache.checkpoint, t.cache.checkpoint, purged, input.checkpointWrite, latest - lag)
            && t.cache.lastSeen == Some(latest)
  {
    CursorMovesIff(lag, s, input, fetched);
    var r := HandleReorg(lag, Report(s, input.latest), input.latest.value, input).0;
    StoreEventsEffect(r, fetched.value, input.eventWrites);
  }

  /** When the cursor stays, so do both checkpoints, unless the poll lost them to a purge. */
  lemma StayedCursor(lag: nat, s: State, input: PollInput, fetched: Option<seq<ContractEvent>>)
    requires Poll(lag, s, input, fetched).cursor == s.cursor
    ensures var t := Poll(lag, s, input, fetched);
            var purged := input.lastSeenRead && Suspicious(lag, s.cache, input.latest.GetOr(s.cursor));
            if !purged then t.cache.cursor == s.cache.cursor && t.cache.checkpoint == s.cache.checkpoint
            else if input.purgeFails.None? then t.cache.cursor.None? && t.cache.checkpoint.None?
            else t.cache == Lose(s.cache, input.purgeFails.value) && t.written == s.written
  {
    var r := HandleReorg(lag, Report(s, input.latest), input.latest.GetOr(s.cursor), input).0;
    if fetched.Some? {
      StoreEventsEffect(r, fetched.value, input.eventWrites);
    }
  }

  /** A poll in which every call succeeds. */
  ghost predicate Healthy(input: PollInput, fetched: Option<seq<ContractEvent>>) {
    && input.latest.Some? && input.lastSeenRead && input.purgeFails.None? && input.lastSeenWrite.Stored?
    && fetched.Some? && forall k :: input.eventWrites(k).Stored?
  }

  /** With every call succeeding, one iteration brings the cursor to the confirmed tip. */
  lemma HealthyPollCatchesUp(lag: nat, s: State, input: PollInput, fetched: Option<seq<ContractEvent>>)
    requires Healthy(input, fetched)
    ensures Poll(lag, s, input, fetched).cursor == Max(s.cursor, input.latest.value - lag)
  {
    CursorMovesIff(lag, s, input, fetched);
    if Poll(lag, s, input, fetched).cursor != s.cursor {
      MovedCursor(lag, s, input, fetched);
    }
  }

  /** The store holds the event under its own id. */
  ghost predicate Holds(c: Cache, x: RawEvent) {
    x.id.Some? && x.id.value in c.events && Describes(c.events[x.id.value], x)
  }

  /** A batch that is stored to the end is in the store. */
  lemma {:induction false} StoredIsHeld(chain: seq<RawEvent>, s: State, events: seq<ContractEvent>,
                                        writes: nat -> Write, e: ContractEvent)
    requires WellFormedChain(chain) && forall d :: d in events ==> d in DecodeAll(chain)
    requires StoreEvents(s, events, writes).1 && e in events
    ensures var events := StoreEvents(s, events, writes).0.cache.events;
            e.id in events && events[e.id] == e
  {
    var k := |events| - 1;
    assert events == events[..k] + [events[k]];
    if e in events[..k] {
      StoredIsHeld(chain, s, events[..k], writes, e);
      if e.id == events[k].id {
        SameIdSameEvent(chain, e, events[k]);
      }
    }
  }

  lemma StoredChainEventHeld(chain: seq<RawEvent>, s: State, events: seq<ContractEvent>, writes: nat -> Write, i: nat)
    requires WellFormedChain(chain) && forall d :: d in events ==> d in DecodeAll(chain)
    requires StoreEvents(s, events, writes).1 && i < |chain| && Decode(chain[i]) in events
    ensures Holds(StoreEvents(s, events, writes).0.cache, chain[i])
  {
    StoredIsHeld(chain, s, events, writes, Decode(chain[i]));
    DecodeDescribes(chain[i]);
  }

  /** A healthy poll leaves every chain event between the old cursor and the confirmed tip in the store. */
  lemma HealthyPollFillsStore(chain: seq<RawEvent>, lag: nat, s: State, input: PollInput,
                              fetched: Option<seq<ContractEvent>>, i: nat)
    requires WellFormedChain(chain) && Enabled(chain, s, Polled(input, fetched)) && Healthy(input, fetched)
    requires i < |chain| && s.cursor < chain[i].ledger.GetOr(0) <= input.latest.value - lag
    ensures Holds(Poll(lag, s, input, fetched).cache, chain[i])
  {
    var latest := input.latest.value;
    var r := HandleReorg(lag, Report(s, input.latest), latest, input).0;
    FetchedIsComplete(chain, latest, s.cursor + 1, fetched.value);
    AllWritesStored(r, fetched.value, input.eventWrites);
    StoredChainEventHeld(chain, r, fetched.value, input.eventWrites, i);
  }

  /**
   A replay that reports completion has left every chain event from its start to the
   confirmed tip in the store, wrote nothing above the tip and counts all it
   fetched, exactly when no completed replay of the same start is cached; otherwise
   it answers that one and changes nothing.
   */
  lemma ReplayWrites(chain: seq<RawEvent>, lag: nat, s: State, from: nat, input: ReplayInput,
                     fetched: Option<seq<ContractEvent>>)
    requires WellFormedChain(chain) && Enabled(chain, s, Replayed(from, input, fetched))
    requires Replay(lag, s, from, input, fetched).1.Some?
    ensures ReplayDone(s, from) ==>
              Replay(lag, s, from, input, fetched) == (s, Some(s.cache.progress[from]))
    ensures !ReplayDone(s, from) ==>
              var tip := input.latest.GetOr(0) - lag;
              var (t, progress) := Replay(lag, s, from, input, fetched);
              && fetched.Some? && progress == Some(Progress(|fetched.value|, true))
              && from in t.cache.progress && t.cache.progress[from] == progress.value
              && (forall i :: 0 <= i < |chain| && from <= chain[i].ledger.GetOr(0) <= tip ==> Holds(t.cache, chain[i]))
              && (forall e :: e in t.written && e !in s.written ==> from <= e.ledger <= tip)
  {
    if !ReplayDone(s, from) {
      var tip := ConfirmedTip(lag, input.latest.value);
      ReplayStores(chain, Report(s, input.latest), from, input.latest.value, tip, fetched.value, input.eventWrites);
    }
  }

  /** Storing what a replay keeps puts the chain events of its range in the store and writes no others. */
  lemma ReplayStores(chain: seq<RawEvent>, s: State, from: nat, latest: nat, tip: nat, fetched: seq<ContractEvent>,
                     writes: nat -> Write)
    requires WellFormedChain(chain) && FetchedAfter(chain, latest, from, Some(fetched)) && tip <= latest
    requires StoreEvents(s, UpTo(fetched, tip), writes).1
    ensures var t := StoreEvents(s, UpTo(fetched, tip), writes).0;
            && (forall i :: 0 <= i < |chain| && from <= chain[i].ledger.GetOr(0) <= tip ==> Holds(t.cache, chain[i]))
            && (forall e :: e in t.written && e !in s.written ==> from <= e.ledger <= tip && e in DecodeAll(chain))
  {
    var kept := UpTo(fetched, tip);
    StoreEventsEffect(s, kept, writes);
    KeptRange(chain, latest, from, fetched, tip);
    forall i | 0 <= i < |chain| && from <= chain[i].ledger.GetOr(0) <= tip
      ensures Holds(StoreEvents(s, kept, writes).0.cache, chain[i])
    {
      StoredChainEventHeld(chain, s, kept, writes, i);
    }
  }

  /** A replay is answered exactly when a cached completion is found or every call it makes succeeds. */
  lemma ReplayAnsweredIff(lag: nat, s: State, from: nat, input: ReplayInput, fetched: Option<seq<ContractEvent>>)
    ensures Replay(lag, s, from, input, fetched).1.Some? <==>
            && input.progressRead
            && (ReplayDone(s, from)
                || (&& input.latest.Some? && fetched.Some? && input.progressWrite.Stored?
                    && forall k :: 0 <= k < |UpTo(fetched.value, ConfirmedTip(lag, input.latest.value))| ==>
                         input.eventWrites(k).Stored?))
  {
    if input.latest.Some? && fetched.Some? {
      var kept := UpTo(fetched.value, ConfirmedTip(lag, input.latest.value));
      StoresAllIff(Report(s, input.latest), kept, input.eventWrites);
    }
  }

  lemma KeptRange(chain: seq<RawEvent>, latest: nat, from: nat, fetched: seq<ContractEvent>, tip: nat)
    requires WellFormedChain(chain) && FetchedAfter(chain, latest, from, Some(fetched)) && tip <= latest
    ensures forall e :: e in UpTo(fetched, tip) ==> e in DecodeAll(chain) && from <= e.ledger <= tip
    ensures forall i :: 0 <= i < |chain| && from <= chain[i].ledger.GetOr(0) <= tip ==> Decode(chain[i]) in UpTo(fetched, tip)
  {
    FetchedIsComplete(chain, latest, from, fetched);
    forall e
      ensures e in UpTo(fetched, tip) <==> e in fetched && e.ledger <= tip
    {
      UpToMembers(fetched, tip, e);
    }
  }

  // ---- Restarts ----

  /** A lossless step whose checkpoint writes land and whose restart can read the cursor. */
  ghost predicate Durable(lag: nat, s: State, step: Step) {
    && Lossless(lag, s, step)
    && (step.Polled? ==> step.poll.cursorWrite.Landed() && step.poll.checkpointWrite.Landed())
    && (step.Restarted? ==> step.restart.cursorRead)
  }

  ghost predicate Persisted(s: State) {
    s.cache.cursor.GetOr(0) == s.cursor && s.cache.checkpoint.GetOr(0) == s.cursor
  }

  lemma {:induction false} StoreEventsKeepsCheckpoints(s: State, events: seq<ContractEvent>, writes: nat -> Write)
    ensures var t := StoreEvents(s, events, writes).0;
            t.cursor == s.cursor && t.cache.cursor == s.cache.cursor && t.cache.checkpoint == s.cache.checkpoint
  {
    if events != [] {
      StoreEventsKeepsCheckpoints(s, events[..|events| - 1], writes);
    }
  }

  lemma DurableStepKeepsPersisted(lag: nat, s: State, step: Step)
    requires Persisted(s) && Durable(lag, s, step)
    ensures Persisted(Apply(lag, s, step))
    ensures step.Restarted? ==> Apply(lag, s, step).cursor == s.cursor
  {
    match step
    case Polled(input, fetched) =>
      var r := HandleReorg(lag, Report(s, input.latest), input.latest.GetOr(s.cursor), input).0;
      assert Persisted(r);
      if fetched.Some? {
        StoreEventsKeepsCheckpoints(r, fetched.value, input.eventWrites);
      }
    case Restarted(input) =>
    case Expired(loss) =>
    case Replayed(from, input, fetched) =>
      if input.latest.Some? && fetched.Some? {
        var kept := UpTo(fetched.value, ConfirmedTip(lag, input.latest.value));
        StoreEventsKeepsCheckpoints(Report(s, input.latest), kept, input.eventWrites);
      }
  }

  /**
   Where a restart begins. Without a readable stored cursor it is the very start, whatever
   the checkpoint says; with one, the checkpoint wins exactly when the node is
   more than one ledger past it. Nothing else changes.
   */
  lemma RestartBegins(lag: nat, s: State, input: RestartInput)
    ensures var t := Apply(lag, s, Restarted(input));
            && t.cache == s.cache && t.written == s.written
            && (!input.cursorRead || s.cache.cursor == None || s.cache.cursor == Some(0) ==> t.cursor == 0)
            && (forall n :: input.cursorRead && s.cache.cursor == Some(n) && n > 0 ==>
                  if input.checkpointRead && s.cache.checkpoint.Some?
                     && input.latest.GetOr(0) > s.cache.checkpoint.value + 1
                  then t.cursor == s.cache.checkpoint.value else t.cursor == n)
  {
  }

  /**
   A restart that finds no stored cursor costs a full pass and repairs the store: after
   the next healthy poll it holds every confirmed event of the chain, whatever
   the checkpoint was and whatever had expired or been purged before.
   */
  lemma LostCursorRebuildsStore(chain: seq<RawEvent>, lag: nat, s: State, restart: RestartInput, input: PollInput,
                                fetched: Option<seq<ContractEvent>>, i: nat)
    requires WellFormedChain(chain) && (!restart.cursorRead || s.cache.cursor.None?)
    requires Enabled(chain, Apply(lag, s, Restarted(restart)), Polled(input, fetched)) && Healthy(input, fetched)
    requires i < |chain| && chain[i].ledger.GetOr(0) + lag <= input.latest.value
    ensures Holds(Apply(lag, Apply(lag, s, Restarted(restart)), Polled(input, fetched)).cache, chain[i])
  {
    RestartBegins(lag, s, restart);
    HealthyPollFillsStore(chain, lag, Apply(lag, s, Restarted(restart)), input, fetched, i);
  }

  /** As long as checkpoints are written and kept, a restart resumes exactly where the last life stopped. */
  lemma {:induction false} RestartResumes(chain: seq<RawEvent>, lag: nat, states: seq<State>, steps: seq<Step>, i: nat)
    requires Run(chain, lag, states, steps) && i < |states|
    requires forall k :: 0 <= k < i ==> Durable(lag, states[k], steps[k])
    ensures Persisted(states[i])
    ensures i < |steps| && steps[i].Restarted? && steps[i].restart.cursorRead ==> states[i + 1].cursor == states[i].cursor
  {
    if i > 0 {
      RestartResumes(chain, lag, states, steps, i - 1);
      assert Durable(lag, states[i - 1], steps[i - 1]);
      DurableStepKeepsPersisted(lag, states[i - 1], steps[i - 1]);
      assert states[i - 1 + 1] == Apply(lag, states[i - 1], steps[i - 1]);
    }
    if i < |steps| && steps[i].Restarted? && steps[i].restart.cursorRead {
      DurableStepKeepsPersisted(lag, states[i], steps[i]);
    }
  }

  /**
   A purge needs no reorganisation: when the ledger query fails, the cursor stands
   in for the latest ledger, and the whole cache is purged exactly when the cursor
   is more than the lag behind the last ledger seen.
   */
  lemma FailedQueryPurges(chain: seq<RawEvent>, lag: nat, s: State, input: PollInput,
                          fetched: Option<seq<ContractEvent>>)
    requires Inv(chain, lag, s) && lag < U32
    requires input.latest.None? && input.lastSeenRead && input.purgeFails.None? && input.lastSeenWrite.Stored?
    ensures Poll(lag, s, input, fetched)
            == var kept := if s.cursor + lag < s.cache.lastSeen.GetOr(0) then EMPTY else s.cache;
               s.(cache := kept.(lastSeen := Some(s.cursor)))
  {
  }

  lemma PairMatches(a: RawEvent, b: RawEvent)
    requires a.ledger.GetOr(0) >= 1 && b.ledger.GetOr(0) >= 1
    ensures Matching([a, b], 1) == [a, b]
  {
    assert [a, b][1..] == [b] && [b][1..] == [];
    assert Matching([b], 1) == [b];
  }

  /** The answers of a poll whose first event write lands and whose second is lost. */
  function HalfStoring(latest: nat): PollInput {
    PollInput(Some(latest), true, None, Stored, k => if k == 0 then Stored else Failed(false), Stored, Stored)
  }

  lemma HalfStored(a: ContractEvent, b: ContractEvent, lag: nat, latest: nat)
    requires lag < latest
    ensures Poll(lag, State(0, EMPTY, {}, 0), HalfStoring(latest), Some([a, b]))
            == State(0, EMPTY.(lastSeen := Some(latest), events := map[a.id := a]), {a}, latest)
  {
    var writes := HalfStoring(latest).eventWrites;
    var r := State(0, EMPTY.(lastSeen := Some(latest)), {}, latest);
    assert [a, b][..1] == [a] && [a][..0] == [];
    assert StoreEvents(r, [a], writes) == (Put(r, a, Stored), true);
    assert StoreEvents(r, [a, b], writes) == (Put(r, a, Stored), false);
  }

  /**
   A run that reaches such a purge on a chain that never changes: the first poll
   stores one of two events and fails on the second, so the cursor stays behind
   the ledger it has seen; the next poll cannot query the ledger and empties the store.
   */
  lemma PurgeWithoutReorg(a: RawEvent, b: RawEvent, lag: nat, latest: nat) returns (states: seq<State>, steps: seq<Step>)
    requires WellFormedChain([a, b]) && a.ledger.GetOr(0) <= latest && b.ledger.GetOr(0) <= latest
    requires lag < latest < U32
    ensures Run([a, b], lag, states, steps) && |steps| == 2 && steps[0].Polled? && steps[1].Polled?
    ensures states[1].cache.events == map[Decode(a).id := Decode(a)]
    ensures states[2].cache.events == map[] && states[2].cursor == 0
  {
    var chain := [a, b];
    assert chain[0] == a && chain[1] == b;
    var fetched := [Decode(a), Decode(b)];
    steps := [Polled(HalfStoring(latest), Some(fetched)), Polled(HalfStoring(latest).(latest := None), None)];
    var s0 := State(0, EMPTY, {}, 0);
    var s1 := Apply(lag, s0, steps[0]);
    states := [s0, s1, Apply(lag, s1, steps[1])];
    assert Enabled(chain, s0, steps[0]) by {
      PairMatches(a, b);
      assert chain[..2] == chain && DecodeAll(chain) == fetched && Serves(chain, 2, latest);
    }
    HalfStored(Decode(a), Decode(b), lag, latest);
  }
}
