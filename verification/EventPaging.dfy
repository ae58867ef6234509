/**
 Paginated event fetch. The node serves pages of at most 100 events from an
 append-only log, and the log may grow between two page requests.
 */
module EventPaging {
  import opened Common

  const U32: nat := 0x1_0000_0000

  /** An event as the node reports it; any JSON field may be missing. */
  datatype RawEvent = RawEvent(id: Option<string>, ledger: Option<nat>, topic: Option<string>, txHash: Option<string>)

  /** An event as the service keeps it. */
  datatype ContractEvent =
    ContractEvent(id: string, ledger: nat, topic: string, txHash: Option<string>, value: RawEvent)

  function Decode(e: RawEvent): ContractEvent {
    ContractEvent(e.id.GetOr("unknown"), e.ledger.GetOr(0) % U32, e.topic.GetOr("unknown"), e.txHash, e)
  }

  /** `e` tells of `x` what the service promises to keep. */
  ghost predicate Describes(e: ContractEvent, x: RawEvent) {
    && e.value == x
    && e.txHash == x.txHash
    && (x.id.Some? ==> x.id == Some(e.id))
    && (x.id.None? ==> e.id == "unknown")
    && (x.topic.Some? ==> x.topic == Some(e.topic))
    && (x.topic.None? ==> e.topic == "unknown")
    && (x.ledger.Some? ==> exists k: nat :: x.ledger.value == e.ledger + 0x1_0000_0000 * k)
    && (x.ledger.None? ==> e.ledger == 0)
    && e.ledger < 0x1_0000_0000
  }

  lemma DecodeDescribes(x: RawEvent)
    ensures Describes(Decode(x), x)
  {
    if x.ledger.Some? {
      assert x.ledger.value == Decode(x).ledger + U32 * (x.ledger.value / U32);
    }
  }

  /** Every event of a completed fetch tells of the event at its own place in the log. */
  lemma FetchedDescribes(events: seq<ContractEvent>, all: seq<RawEvent>, pages: nat, i: nat)
    requires Fetched(events, all, pages) && i < |events|
    ensures i < |all| && Describes(events[i], all[i])
  {
    DecodeDescribes(all[i]);
  }

  function DecodeAll(s: seq<RawEvent>): (r: seq<ContractEvent>)
    ensures |r| == |s|
    ensures forall i :: 0 <= i < |s| ==> r[i] == Decode(s[i])
  {
    seq(|s|, i requires 0 <= i < |s| => Decode(s[i]))
  }

  function Head(e: RawEvent, start: nat): seq<RawEvent> {
    if e.ledger.GetOr(0) >= start then [e] else []
  }

  /** The events of `log` at ledger `start` or later, in log order. */
  function Matching(log: seq<RawEvent>, start: nat): seq<RawEvent> {
    if log == [] then [] else Head(log[0], start) + Matching(log[1..], start)
  }

  /** What follows the event named by the cursor; everything when there is no cursor. */
  function After(log: seq<RawEvent>, cursor: Option<string>): seq<RawEvent> {
    if cursor.None? || log == [] then log
    else if log[0].id == cursor then log[1..]
    else After(log[1..], cursor)
  }

  function FirstOf<T>(n: nat, s: seq<T>): seq<T> {
    if |s| <= n then s else s[..n]
  }

  /**
   A node: its log, how much of the log it serves at request k, and whether
   request k succeeds (after the retries of the RPC layer).
   */
  datatype Node = Node(log: seq<RawEvent>, visible: nat -> nat, answers: nat -> bool) {
    ghost predicate Valid() {
      && UniqueIds(log)
      && (forall k :: visible(k) <= |log|)
      && (forall j, k :: j <= k ==> visible(j) <= visible(k))
    }

    function At(request: nat): seq<RawEvent>
      requires visible(request) <= |log|
    {
      log[..visible(request)]
    }

    /** One getEvents answer. */
    function Page(request: nat, start: nat, cursor: Option<string>): seq<RawEvent>
      requires visible(request) <= |log|
    {
      FirstOf(100, Matching(After(At(request), cursor), start))
    }
  }

  /** Ids that are present are distinct. */
  ghost predicate UniqueIds(log: seq<RawEvent>) {
    forall i, j :: 0 <= i < j < |log| && log[i].id.Some? ==> log[i].id != log[j].id
  }

  ghost predicate AllHaveIds(log: seq<RawEvent>) {
    forall i :: 0 <= i < |log| ==> log[i].id.Some?
  }

  lemma {:induction false} MatchingConcat(a: seq<RawEvent>, b: seq<RawEvent>, start: nat)
    ensures Matching(a + b, start) == Matching(a, start) + Matching(b, start)
  {
    if a == [] {
      assert a + b == b;
    } else {
      MatchingConcat(a[1..], b, start);
      assert (a + b)[0] == a[0] && (a + b)[1..] == a[1..] + b;
      ConcatAssociative(Head(a[0], start), Matching(a[1..], start), Matching(b, start));
    }
  }

  /** A longer prefix of the log only appends to the matching events. */
  lemma MatchingPrefix(log: seq<RawEvent>, i: nat, j: nat, start: nat)
    requires i <= j <= |log|
    ensures Matching(log[..i], start) <= Matching(log[..j], start)
    ensures Matching(log[..j], start) == Matching(log[..i], start) + Matching(log[i..j], start)
  {
    assert log[..j] == log[..i] + log[i..j];
    MatchingConcat(log[..i], log[i..j], start);
  }

  lemma {:induction false} MatchingMembers(log: seq<RawEvent>, start: nat, e: RawEvent)
    ensures e in Matching(log, start) <==> e in log && e.ledger.GetOr(0) >= start
  {
    if log != [] {
      MatchingMembers(log[1..], start, e);
    }
  }

  lemma {:induction false} AfterPosition(log: seq<RawEvent>, m: nat)
    requires 0 < m <= |log| && UniqueIds(log) && log[m - 1].id.Some?
    ensures After(log, log[m - 1].id) == log[m..]
  {
    if log[0].id != log[m - 1].id {
      AfterPosition(log[1..], m - 1);
    } else {
      assert m == 1;
    }
  }

  /** The first k matching events end at some log position. */
  lemma {:induction false} CutPosition(log: seq<RawEvent>, start: nat, k: nat) returns (j: nat)
    requires 0 < k <= |Matching(log, start)|
    ensures 0 < j <= |log|
    ensures Matching(log[..j], start) == Matching(log, start)[..k]
    ensures log[j - 1] == Matching(log, start)[k - 1]
  {
    var head := if log[0].ledger.GetOr(0) >= start then 1 else 0;
    if k == head {
      j := 1;
      assert Matching(log[..1], start) == [log[0]];
    } else {
      var rest := CutPosition(log[1..], start, k - head);
      j := rest + 1;
      assert log[..j][1..] == log[1..][..rest];
    }
  }

  /**
   The events a completed fetch returns, against `all`, the matching events the
   node served last: all of them, unless the loop stopped after a full page
   whose last event had no id to continue from.
   */
  ghost predicate Fetched(events: seq<ContractEvent>, all: seq<RawEvent>, pages: nat) {
    && |events| <= |all|
    && events == DecodeAll(all[..|events|])
    && (forall k :: 0 < k && 100 * k < |events| ==> all[100 * k - 1].id.Some?)
    && (|events| < |all| ==> StopsAt(all, |events|))
    && pages == |events| / 100 + if StopsAt(all, |events|) then 0 else 1
  }

  /** The first n events fill whole pages and the last of them has no id. */
  ghost predicate StopsAt(all: seq<RawEvent>, n: nat)
    requires n <= |all|
  {
    n > 0 && n % 100 == 0 && all[n - 1].id.None?
  }

  /** After `pages` full pages: `all` is everything up to log position `m`, where the cursor stands. */
  ghost predicate Received(node: Node, start: nat, all: seq<ContractEvent>, cursor: Option<string>,
                           m: nat, pages: nat)
  {
    && m <= |node.log|
    && (pages == 0 ==> m == 0 && cursor.None?)
    && (pages > 0 ==> 0 < m <= node.visible(pages - 1) && cursor.Some? && node.log[m - 1].id == cursor)
    && |all| == 100 * pages
    && all == DecodeAll(Matching(node.log[..m], start))
    && (forall k :: 0 < k <= pages ==> Matching(node.log[..m], start)[100 * k - 1].id.Some?)
  }

  /** The page served for the cursor continues exactly where the received events end. */
  lemma PageFollows(node: Node, request: nat, start: nat, cursor: Option<string>, m: nat)
    returns (rest: seq<RawEvent>)
    requires node.Valid() && m <= node.visible(request)
    requires cursor.None? ==> m == 0
    requires cursor.Some? ==> m > 0 && node.log[m - 1].id == cursor
    ensures rest == Matching(node.At(request)[m..], start)
    ensures node.Page(request, start, cursor) == FirstOf(100, rest)
    ensures Matching(node.At(request), start) == Matching(node.log[..m], start) + rest
  {
    var seen := node.At(request);
    if cursor.Some? {
      AfterPosition(seen, m);
    }
    rest := Matching(seen[m..], start);
    MatchingPrefix(seen, m, |seen|, start);
    assert seen[..m] == node.log[..m] && seen[..|seen|] == seen && seen[m..|seen|] == seen[m..];
  }

  /** The next 100 matching events after position `m` end at a position of their own. */
  lemma Advance(seen: seq<RawEvent>, m: nat, start: nat) returns (next: nat)
    requires m <= |seen| && |Matching(seen[m..], start)| >= 100
    ensures m < next <= |seen|
    ensures Matching(seen[..next], start) == Matching(seen[..m], start) + Matching(seen[m..], start)[..100]
    ensures seen[next - 1] == Matching(seen[m..], start)[99]
    ensures Matching(seen[..next], start) <= Matching(seen, start)
  {
    var j := CutPosition(seen[m..], start, 100);
    next := m + j;
    MatchingPrefix(seen, m, next, start);
    MatchingPrefix(seen, next, |seen|, start);
    assert seen[m..][..j] == seen[m..next] && seen[..|seen|] == seen;
  }

  /** A full page moves the position past its last event. */
  lemma FullPage(node: Node, start: nat, all: seq<ContractEvent>, cursor: Option<string>, m: nat, pages: nat)
    returns (next: nat)
    requires node.Valid() && Received(node, start, all, cursor, m, pages)
    requires |node.Page(pages, start, cursor)| == 100
    ensures m < next <= node.visible(pages)
    ensures var batch := node.Page(pages, start, cursor);
            && Matching(node.log[..next], start) == Matching(node.log[..m], start) + batch
            && node.log[next - 1] == batch[99]
    ensures Matching(node.log[..next], start) <= Matching(node.At(pages), start)
  {
    var seen := node.At(pages);
    assert m <= node.visible(pages);
    var rest := PageFollows(node, pages, start, cursor, m);
    next := Advance(seen, m, start);
    assert seen[..m] == node.log[..m] && seen[..next] == node.log[..next];
    assert rest[..100] == node.Page(pages, start, cursor);
  }

  lemma DecodeConcat(a: seq<RawEvent>, b: seq<RawEvent>)
    ensures DecodeAll(a + b) == DecodeAll(a) + DecodeAll(b)
  {
  }

  /** Full pages of events with ids, followed by a short page, are a complete fetch. */
  lemma EndsShort(before: seq<RawEvent>, rest: seq<RawEvent>, pages: nat)
    requires |before| == 100 * pages && |rest| < 100
    requires forall k :: 0 < k <= pages ==> before[100 * k - 1].id.Some?
    ensures Fetched(DecodeAll(before) + DecodeAll(rest), before + rest, pages + 1)
  {
  }

  /** Full pages of events with ids, followed by a full page that ends without one, stop the fetch. */
  lemma EndsWithoutId(before: seq<RawEvent>, batch: seq<RawEvent>, whole: seq<RawEvent>, pages: nat)
    requires |before| == 100 * pages && |batch| == 100 && batch[99].id.None? && before + batch <= whole
    requires forall k :: 0 < k <= pages ==> before[100 * k - 1].id.Some?
    ensures Fetched(DecodeAll(before) + DecodeAll(batch), whole, pages + 1)
  {
  }

  /** A page that is short, or ends in an event without an id, ends the fetch. */
  lemma LastPage(node: Node, start: nat, all: seq<ContractEvent>, cursor: Option<string>, m: nat, pages: nat,
                 batch: seq<RawEvent>)
    requires node.Valid() && Received(node, start, all, cursor, m, pages)
    requires batch == node.Page(pages, start, cursor) && (|batch| < 100 || batch[99].id.None?)
    ensures Fetched(all + DecodeAll(batch), Matching(node.At(pages), start), pages + 1)
  {
    var before := Matching(node.log[..m], start);
    if |batch| < 100 {
      assert m <= node.visible(pages);
      var rest := PageFollows(node, pages, start, cursor, m);
      EndsShort(before, rest, pages);
    } else {
      var next := FullPage(node, start, all, cursor, m, pages);
      EndsWithoutId(before, batch, Matching(node.At(pages), start), pages);
    }
  }

  lemma ReceivedNext(node: Node, start: nat, all: seq<ContractEvent>, cursor: Option<string>, m: nat, pages: nat,
                     batch: seq<RawEvent>)
    returns (next: nat)
    requires node.Valid() && Received(node, start, all, cursor, m, pages)
    requires batch == node.Page(pages, start, cursor) && |batch| == 100 && batch[99].id.Some?
    ensures m < next
    ensures Received(node, start, all + DecodeAll(batch), batch[99].id, next, pages + 1)
  {
    next := FullPage(node, start, all, cursor, m, pages);
    var before, upTo := Matching(node.log[..m], start), Matching(node.log[..next], start);
    DecodeConcat(before, batch);
    forall k | 0 < k <= pages + 1
      ensures upTo[100 * k - 1].id.Some?
    {
      if k <= pages {
        assert upTo[100 * k - 1] == before[100 * k - 1];
      } else {
        assert upTo[100 * k - 1] == batch[99];
      }
    }
  }

  /** One turn of the loop: takes the next page and decides whether it was the last. */
  method TakePage(node: Node, start: nat, received: seq<ContractEvent>, cursor: Option<string>, pages: nat, ghost m: nat)
    returns (all: seq<ContractEvent>, lastId: Option<string>, last: bool, ghost next: nat)
    requires node.Valid() && Received(node, start, received, cursor, m, pages)
    ensures last ==> Fetched(all, Matching(node.At(pages), start), pages + 1)
    ensures !last ==> m < next && Received(node, start, all, lastId, next, pages + 1)
  {
    var batch := node.Page(pages, start, cursor);
    lastId := if |batch| > 0 then batch[|batch| - 1].id else None;
    all := received + DecodeAll(batch);
    last := |batch| < 100 || lastId.None?;
    next := m;
    if last {
      LastPage(node, start, received, cursor, m, pages, batch);
    } else {
      next := ReceivedNext(node, start, received, cursor, m, pages, batch);
    }
  }

  method FetchEventsSince(node: Node, start: nat) returns (r: Option<seq<ContractEvent>>, pages: nat)
    requires node.Valid()
    ensures forall k :: 0 <= k < pages ==> node.answers(k)
    ensures r.None? ==> !node.answers(pages)
    ensures r.Some? ==> pages > 0 && Fetched(r.value, Matching(node.At(pages - 1), start), pages)
  {
    var all: seq<ContractEvent> := [];
    var cursor: Option<string> := None;
    var last := false;
    pages := 0;
    ghost var m := 0; // log position just after the last event received
    while !last
      invariant forall k :: 0 <= k < pages ==> node.answers(k)
      invariant !last ==> Received(node, start, all, cursor, m, pages)
      invariant last ==> pages > 0 && Fetched(all, Matching(node.At(pages - 1), start), pages)
      decreases !last, |node.log| - m
    {
      if !node.answers(pages) {
        return None, pages;
      }
      all, cursor, last, m := TakePage(node, start, all, cursor, pages, m);
      pages := pages + 1;
    }
    r := Some(all);
  }

  /**
   On a log that does not change during the fetch, the fetch is complete exactly
   when no full page but the last ends in an event without an id.
   */
  lemma CompleteIff(events: seq<ContractEvent>, all: seq<RawEvent>, pages: nat)
    requires Fetched(events, all, pages)
    ensures events == DecodeAll(all) <==>
            forall k :: 0 < k && 100 * k < |all| ==> all[100 * k - 1].id.Some?
  {
    if |events| < |all| {
      var k := |events| / 100;
      assert 100 * k == |events|;
      assert all[100 * k - 1].id.None?;
    } else {
      assert all[..|events|] == all;
    }
  }

  /** With ids present, n matching events take exactly n / 100 + 1 requests. */
  lemma PageCount(events: seq<ContractEvent>, all: seq<RawEvent>, pages: nat)
    requires Fetched(events, all, pages) && AllHaveIds(all)
    ensures events == DecodeAll(all) && pages == |all| / 100 + 1
  {
    CompleteIff(events, all, pages);
  }
}
