/**
 The sync worker as the service runs it: a mutable cursor and cache, updated
 step by step. Each method is tied to the protocol step it performs.
 */
module SyncWorker {
  import opened Common
  import opened EventPaging
  import L = LedgerSync

  lemma {:induction false} UpToPrefix(events: seq<ContractEvent>, tip: nat, n: nat)
    requires n <= |events|
    ensures L.UpTo(events[..n], tip) <= L.UpTo(events, tip)
  {
    if n == |events| {
      assert events[..n] == events;
    } else {
      var shorter := events[..|events| - 1];
      assert shorter[..n] == events[..n];
      UpToPrefix(shorter, tip, n);
    }
  }

  /** What one loop iteration meets: the node it talks to and the other answers. */
  datatype Round = Round(input: L.PollInput, node: Node)

  /** The node serves the chain and, once ledger `latest` is reported, everything up to it. */
  ghost predicate NodeServes(chain: seq<RawEvent>, node: Node, latest: Option<nat>) {
    && node.Valid() && node.log == chain
    && (latest.Some? ==> latest.value < U32 && L.Serves(chain, node.visible(0), latest.value))
  }

  /** The paginated fetch: it fails, or returns everything from `start` to the reported ledger. */
  method FetchAll(latest: nat, start: nat, node: Node, ghost chain: seq<RawEvent>)
    returns (events: Option<seq<ContractEvent>>)
    requires L.WellFormedChain(chain) && NodeServes(chain, node, Some(latest))
    ensures L.FetchedAfter(chain, latest, start, events)
  {
    var pages;
    events, pages := FetchEventsSince(node, start);
    if events.Some? {
      CompleteFetch(chain, node, latest, start, events.value, pages);
    }
  }

  class Worker {
    const lag: nat
    var cursor: nat
    var cache: L.Cache
    ghost var written: set<ContractEvent>
    ghost var reported: nat

    constructor (lag: nat)
      ensures this.lag == lag && Snapshot() == L.State(0, L.EMPTY, {}, 0)
    {
      this.lag, cursor, cache := lag, 0, L.EMPTY;
      written, reported := {}, 0;
    }

    ghost function Snapshot(): L.State
      reads this
    {
      L.State(cursor, cache, written, reported)
    }

    ghost method Report(latest: Option<nat>)
      modifies this`reported
      ensures Snapshot() == L.Report(old(Snapshot()), latest)
    {
      if latest.Some? && latest.value > reported {
        reported := latest.value;
      }
    }

    method PutEvent(e: ContractEvent, w: Write)
      modifies this`cache, this`written
      ensures Snapshot() == L.Put(old(Snapshot()), e, w)
    {
      if w.Landed() {
        cache := cache.(events := cache.events[e.id := e]);
        written := written + {e};
      }
    }

    method StoreEvents(events: seq<ContractEvent>, writes: nat -> Write) returns (ok: bool)
      modifies this`cache, this`written
      ensures (Snapshot(), ok) == L.StoreEvents(old(Snapshot()), events, writes)
    {
      for i := 0 to |events|
        invariant (Snapshot(), true) == L.StoreEvents(old(Snapshot()), events[..i], writes)
      {
        assert events[..i + 1][..i] == events[..i];
        PutEvent(events[i], writes(i));
        if !writes(i).Stored? {
          L.FailedPrefix(old(Snapshot()), events, writes, i + 1);
          return false;
        }
      }
      assert events[..|events|] == events;
      return true;
    }

    method HandleReorg(latest: nat, input: L.PollInput) returns (ok: bool)
      modifies this`cache
      ensures (Snapshot(), ok) == L.HandleReorg(lag, old(Snapshot()), latest, input)
    {
      if !input.lastSeenRead {
        return false;
      }
      var previous := cache.lastSeen.GetOr(0);
      if previous > 0 && (latest + lag) % U32 < previous {
        if input.purgeFails.Some? {
          cache := L.Lose(cache, input.purgeFails.value);
          return false;
        }
        cache := L.EMPTY;
      }
      if input.lastSeenWrite.Landed() {
        cache := cache.(lastSeen := Some(latest));
      }
      return input.lastSeenWrite.Stored?;
    }

    /** `fetched` is what the paginated fetch brought back, if it was reached and succeeded. */
    method SyncOnce(input: L.PollInput, node: Node, ghost chain: seq<RawEvent>)
      returns (next: Option<nat>, ghost fetched: Option<seq<ContractEvent>>)
      requires L.WellFormedChain(chain) && NodeServes(chain, node, input.latest)
      modifies this`cache, this`written, this`reported
      ensures (Snapshot(), next) == L.SyncOnce(lag, old(Snapshot()), input, fetched)
      ensures L.Enabled(chain, old(Snapshot()), L.Polled(input, fetched))
    {
      fetched := None;
      var latest := input.latest.GetOr(cursor);
      Report(input.latest);
      var ok := HandleReorg(latest, input);
      if !ok {
        return None, fetched;
      }
      var confirmedTip := if latest >= lag then latest - lag else 0;
      if confirmedTip <= cursor {
        return Some(cursor), fetched;
      }
      ok, fetched := FetchAndStore(latest, input.eventWrites, node, chain);
      next := if ok then Some(confirmedTip) else None;
    }

    /** Fetches everything after the cursor and stores it. */
    method FetchAndStore(latest: nat, writes: nat -> Write, node: Node, ghost chain: seq<RawEvent>)
      returns (ok: bool, ghost fetched: Option<seq<ContractEvent>>)
      requires L.WellFormedChain(chain) && NodeServes(chain, node, Some(latest))
      modifies this`cache, this`written
      ensures L.FetchedAfter(chain, latest, cursor + 1, fetched)
      ensures fetched.None? ==> !ok && Snapshot() == old(Snapshot())
      ensures fetched.Some? ==> (Snapshot(), ok) == L.StoreEvents(old(Snapshot()), fetched.value, writes)
    {
      var events := FetchAll(latest, cursor + 1, node, chain);
      fetched := events;
      ok := false;
      if events.Some? {
        ok := StoreEvents(events.value, writes);
      }
    }

    /** One iteration of the sync loop; failures of the two checkpoint writes are ignored. */
    method Poll(input: L.PollInput, node: Node, ghost chain: seq<RawEvent>)
      returns (ghost fetched: Option<seq<ContractEvent>>)
      requires L.WellFormedChain(chain) && NodeServes(chain, node, input.latest)
      modifies this
      ensures Snapshot() == L.Poll(lag, old(Snapshot()), input, fetched)
      ensures L.Enabled(chain, old(Snapshot()), L.Polled(input, fetched))
    {
      var next;
      next, fetched := SyncOnce(input, node, chain);
      if next.Some? && next.value > cursor {
        cursor := next.value;
        if input.cursorWrite.Landed() {
          cache := cache.(cursor := Some(cursor));
        }
        if input.checkpointWrite.Landed() {
          cache := cache.(checkpoint := Some(cursor));
        }
      }
    }

    method Start(input: L.RestartInput)
      modifies this`cursor, this`reported
      ensures Snapshot() == L.Apply(lag, old(Snapshot()), L.Restarted(input))
    {
      Report(input.latest);
      cursor := if input.cursorRead then cache.cursor.GetOr(0) else 0;
      if cursor > 0 && input.checkpointRead && cache.checkpoint.Some? && input.latest.Some? {
        if input.latest.value > cache.checkpoint.value + 1 {
          cursor := cache.checkpoint.value;
        }
      }
    }

    /** One life of the sync loop: start from the stored cursors, then poll until shutdown. */
    method RunSyncLoop(start: L.RestartInput, rounds: seq<Round>, ghost chain: seq<RawEvent>)
      requires L.WellFormedChain(chain) && L.Inv(chain, lag, Snapshot())
      requires start.latest.Some? ==> start.latest.value < U32
      requires forall k :: 0 <= k < |rounds| ==> NodeServes(chain, rounds[k].node, rounds[k].input.latest)
      modifies this
      ensures L.Inv(chain, lag, Snapshot())
      ensures cursor >= L.StartCursor(old(cache), start)
    {
      L.StepKeepsInv(chain, lag, Snapshot(), L.Restarted(start));
      Start(start);
      for k := 0 to |rounds|
        invariant L.Inv(chain, lag, Snapshot())
        invariant cursor >= L.StartCursor(old(cache), start)
      {
        ghost var before := Snapshot();
        ghost var fetched := Poll(rounds[k].input, rounds[k].node, chain);
        L.PollKeepsInv(chain, lag, before, rounds[k].input, fetched);
      }
    }

    method ReplayEvents(from: nat, input: L.ReplayInput, node: Node, ghost chain: seq<RawEvent>)
      returns (r: Option<L.Progress>, ghost fetched: Option<seq<ContractEvent>>)
      requires L.WellFormedChain(chain) && NodeServes(chain, node, input.latest)
      modifies this`cache, this`written, this`reported
      ensures (Snapshot(), r) == L.Replay(lag, old(Snapshot()), from, input, fetched)
      ensures L.Enabled(chain, old(Snapshot()), L.Replayed(from, input, fetched))
    {
      fetched := None;
      if !input.progressRead {
        return None, fetched;
      }
      if from in cache.progress && cache.progress[from].completed {
        return Some(cache.progress[from]), fetched;
      }
      if input.latest.None? {
        return None, fetched;
      }
      Report(input.latest);
      r, fetched := RunReplay(from, input.latest.value, input, node, chain);
    }

    /** The part of a replay that no cached result can replace. */
    method RunReplay(from: nat, latest: nat, input: L.ReplayInput, node: Node, ghost chain: seq<RawEvent>)
      returns (r: Option<L.Progress>, ghost fetched: Option<seq<ContractEvent>>)
      requires L.WellFormedChain(chain) && NodeServes(chain, node, Some(latest))
      modifies this`cache, this`written
      ensures L.FetchedAfter(chain, latest, from, fetched)
      ensures fetched.None? ==> r.None? && Snapshot() == old(Snapshot())
      ensures fetched.Some? ==>
                var (t, stored) :=
                  L.StoreEvents(old(Snapshot()), L.UpTo(fetched.value, L.ConfirmedTip(lag, latest)), input.eventWrites);
                (Snapshot(), r) == L.FinishReplay(t, stored, from, |fetched.value|, input.progressWrite)
    {
      var confirmedTip := if latest >= lag then latest - lag else 0;
      var events := FetchAll(latest, from, node, chain);
      fetched := events;
      if events.None? {
        return None, fetched;
      }
      var ok := StoreConfirmed(events.value, confirmedTip, input.eventWrites);
      if !ok {
        return None, fetched;
      }
      var progress := L.Progress(|events.value|, true);
      if input.progressWrite.Landed() {
        cache := cache.(progress := cache.progress[from := progress]);
      }
      r := if input.progressWrite.Stored? then Some(progress) else None;
    }

    /** The replay loop: skips events above the tip, stores the rest. */
    method StoreConfirmed(events: seq<ContractEvent>, tip: nat, writes: nat -> Write) returns (ok: bool)
      modifies this`cache, this`written
      ensures (Snapshot(), ok) == L.StoreEvents(old(Snapshot()), L.UpTo(events, tip), writes)
    {
      var stored := 0;
      for i := 0 to |events|
        invariant stored == |L.UpTo(events[..i], tip)|
        invariant (Snapshot(), true) == L.StoreEvents(old(Snapshot()), L.UpTo(events[..i], tip), writes)
      {
        assert events[..i + 1][..i] == events[..i];
        if events[i].ledger > tip {
          assert L.UpTo(events[..i + 1], tip) == L.UpTo(events[..i], tip);
          continue;
        }
        ghost var kept := L.UpTo(events[..i + 1], tip);
        assert kept[..stored] == L.UpTo(events[..i], tip);
        PutEvent(events[i], writes(stored));
        if !writes(stored).Stored? {
          UpToPrefix(events, tip, i + 1);
          assert L.UpTo(events, tip)[..stored + 1] == kept;
          L.FailedPrefix(old(Snapshot()), L.UpTo(events, tip), writes, stored + 1);
          return false;
        }
        stored := stored + 1;
      }
      assert events[..|events|] == events;
      return true;
    }
  }

  /** With ids on every event, a fetch that succeeds returns all it should. */
  lemma CompleteFetch(chain: seq<RawEvent>, node: Node, latest: nat, start: nat, events: seq<ContractEvent>, pages: nat)
    requires L.WellFormedChain(chain) && NodeServes(chain, node, Some(latest)) && pages > 0
    requires Fetched(events, Matching(node.At(pages - 1), start), pages)
    ensures L.FetchedAfter(chain, latest, start, Some(events))
  {
    var v := node.visible(pages - 1);
    var all := Matching(chain[..v], start);
    forall i | 0 <= i < |all|
      ensures all[i].id.Some?
    {
      MatchingMembers(chain[..v], start, all[i]);
    }
    PageCount(events, all, pages);
    assert node.visible(0) <= v;
    assert L.Serves(chain, v, latest);
  }
}
