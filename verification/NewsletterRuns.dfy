/**
 Properties of whole histories of newsletter operations: what tokens can do,
 and who can notice the background cleanup.
 */
module NewsletterRuns {
  import opened Common
  import opened Newsletter

  // ---- Rows in every reachable table ----

  ghost predicate RowsConsistent(t: Table) {
    forall e :: e in t && t[e].confirmed ==>
      t[e].token.None? && t[e].confirmedAt.Some? && t[e].unsubscribedAt.None?
  }

  /** A history from the empty table: one table more than operations, and a clock that never runs back. */
  datatype History = History(ttl: nat, tables: seq<Table>, ops: seq<Op>) {
    ghost predicate Valid() {
      && |tables| == |ops| + 1
      && tables[0] == map[]
      && (forall i :: 0 <= i < |ops| ==>
            Enabled(ttl, tables[i], ops[i]) && tables[i + 1] == Next(ttl, tables[i], ops[i]))
      && (forall i, j :: 0 <= i < j < |ops| ==> ops[i].now <= ops[j].now)
    }

    /** Tokens are random: no two subscribe requests carry the same one. */
    ghost predicate FreshTokens() {
      forall i, j :: 0 <= i < j < |ops| && ops[i].Subscribing? && ops[j].Subscribing? ==> ops[i].token != ops[j].token
    }

    /** Operation i stores a token for `email`. */
    ghost predicate Issues(i: nat, email: string)
      requires Valid()
    {
      i < |ops| && ops[i].Subscribing? && ops[i].email == email && !AlreadyActive(tables[i], email)
    }

    /** Operation i confirms some row by `token`. */
    ghost predicate Redeems(i: nat, token: string)
      requires Valid()
    {
      i < |ops| && ops[i].Confirming? && ops[i].token == token && Confirms(tables[i], token, ops[i].now, ttl)
    }

    /** Operation i deletes the row of `email`. */
    ghost predicate Removes(i: nat, email: string)
      requires Valid()
    {
      i < |ops| && ((ops[i].Erasing? && ops[i].email == email) || (ops[i].Cleaning? && email in ops[i].chosen))
    }

    /** At table i, `token` was issued to `email` by operation j and nothing has used, replaced or erased it since. */
    ghost predicate Outstanding(i: nat, email: string, token: string, j: nat)
      requires Valid()
    {
      && j < i <= |ops| && Issues(j, email) && ops[j].token == token
      && (forall k :: j < k < i ==> !Issues(k, email) && !Redeems(k, token) && !Removes(k, email))
    }
  }

  lemma {:induction false} ReachableRowsConsistent(h: History, i: nat)
    requires h.Valid() && i < |h.tables|
    ensures RowsConsistent(h.tables[i])
  {
    if i > 0 {
      ReachableRowsConsistent(h, i - 1);
      assert h.tables[i - 1 + 1] == Next(h.ttl, h.tables[i - 1], h.ops[i - 1]);
    }
  }

  /** What one operation can do to the token and issue time of a row. */
  lemma TokenStep(ttl: nat, t: Table, op: Op, e: string)
    requires e in Next(ttl, t, op) && Next(ttl, t, op)[e].token.Some?
    ensures var r := Next(ttl, t, op)[e];
            if op.Subscribing? && op.email == e && !AlreadyActive(t, e)
            then r == Row(op.source, false, Some(op.token), op.now, None, None, r.deletedAt)
            else e in t && t[e].token == r.token && t[e].createdAt == r.createdAt && t[e].source == r.source
                 && (r.confirmed ==> t[e].confirmed) && r.confirmedAt == t[e].confirmedAt
                 && (op.Confirming? ==> !Confirmable(t[e], op.token, op.now, ttl))
                 && !(op.Erasing? && op.email == e) && !(op.Cleaning? && e in op.chosen)
  {
  }

  /** Every token held by a row is outstanding, and the row's creation time is its issue time. */
  lemma {:induction false} HeldTokenIsOutstanding(h: History, i: nat, e: string) returns (j: nat)
    requires h.Valid() && h.FreshTokens() && i < |h.tables| && e in h.tables[i] && h.tables[i][e].token.Some?
    ensures h.Outstanding(i, e, h.tables[i][e].token.value, j)
    ensures h.tables[i][e].createdAt == h.ops[j].now && h.tables[i][e].source == h.ops[j].source
    ensures !h.tables[i][e].confirmed && h.tables[i][e].confirmedAt.None?
  {
    var p := i - 1;
    var t, op := h.tables[p], h.ops[p];
    assert h.tables[p + 1] == Next(h.ttl, t, op);
    TokenStep(h.ttl, t, op, e);
    if h.Issues(p, e) {
      j := p;
    } else {
      var token := t[e].token.value;
      j := HeldTokenIsOutstanding(h, p, e);
      if h.Redeems(p, token) {
        var e2 :| e2 in t && Confirmable(t[e2], token, op.now, h.ttl);
        var j2 := HeldTokenIsOutstanding(h, p, e2);
        assert false;
      }
    }
  }

  /**
   A token confirms only while it is outstanding (issued to one address, not used before,
   not replaced by a newer token, its row not deleted since) and within its time to live.
   */
  lemma RedeemedTokenIsFresh(h: History, k: nat, token: string) returns (e: string, j: nat)
    requires h.Valid() && h.FreshTokens() && h.Redeems(k, token)
    ensures h.Outstanding(k, e, token, j)
    ensures h.ops[j].now <= h.ops[k].now < h.ops[j].now + h.ttl
  {
    e :| e in h.tables[k] && Confirmable(h.tables[k][e], token, h.ops[k].now, h.ttl);
    j := HeldTokenIsOutstanding(h, k, e);
  }

  /** No token confirms twice in any history. */
  lemma TokenConfirmsAtMostOnce(h: History, i: nat, k: nat, token: string)
    requires h.Valid() && h.FreshTokens() && h.Redeems(i, token) && h.Redeems(k, token)
    ensures i == k
  {
    var e1, j1 := RedeemedTokenIsFresh(h, i, token);
    var e2, j2 := RedeemedTokenIsFresh(h, k, token);
    assert h.ops[j1].token == h.ops[j2].token;
    assert j1 == j2;
  }

  /** Once a newer token is stored for an address, older ones for it never confirm. */
  lemma NewerTokenSupersedes(h: History, e: string, i: nat, j: nat, k: nat)
    requires h.Valid() && h.FreshTokens() && h.Issues(i, e) && h.Issues(j, e) && i < j < k
    ensures !h.Redeems(k, h.ops[i].token)
  {
    if h.Redeems(k, h.ops[i].token) {
      var e2, j2 := RedeemedTokenIsFresh(h, k, h.ops[i].token);
      assert false;
    }
  }

  /** The converse: an outstanding token is the one its address's row holds. */
  lemma {:induction false} OutstandingTokenIsHeld(h: History, i: nat, e: string, token: string, j: nat)
    requires h.Valid() && h.Outstanding(i, e, token, j)
    ensures e in h.tables[i] && h.tables[i][e].token == Some(token) && h.tables[i][e].createdAt == h.ops[j].now
  {
    var p := i - 1;
    assert h.tables[p + 1] == Next(h.ttl, h.tables[p], h.ops[p]);
    if j < p {
      OutstandingTokenIsHeld(h, p, e, token, j);
      assert !h.Issues(p, e) && !h.Redeems(p, token) && !h.Removes(p, e);
    }
  }

  /**
   Double opt-in: every confirmed row was confirmed at its confirmation time, by the token
   issued to that very address, within its time to live.
   */
  lemma {:induction false} ConfirmedByOwnToken(h: History, i: nat, e: string) returns (k: nat, j: nat)
    requires h.Valid() && h.FreshTokens() && i < |h.tables| && e in h.tables[i] && h.tables[i][e].confirmed
    ensures j < k < i && h.ops[k].Confirming? && h.Outstanding(k, e, h.ops[k].token, j)
    ensures h.ops[k].now < h.ops[j].now + h.ttl
    ensures h.tables[i][e].confirmedAt == Some(h.ops[k].now)
    ensures h.tables[i][e].createdAt == h.ops[j].now && h.tables[i][e].source == h.ops[j].source
  {
    var p := i - 1;
    assert h.tables[p + 1] == Next(h.ttl, h.tables[p], h.ops[p]);
    if e in h.tables[p] && h.tables[p][e].confirmed {
      k, j := ConfirmedByOwnToken(h, p, e);
      ReachableRowsConsistent(h, p);
    } else {
      k := p;
      j := HeldTokenIsOutstanding(h, p, e);
    }
  }

  /** Unsubscription and deletion times are those of operations on that address. */
  lemma {:induction false} MarksHaveOrigins(h: History, i: nat, e: string, time: int)
    requires h.Valid() && i < |h.tables| && e in h.tables[i]
    ensures h.tables[i][e].unsubscribedAt == Some(time) ==> exists k :: 0 <= k < i && h.ops[k] == Unsubscribing(e, time)
    ensures h.tables[i][e].deletedAt == Some(time) ==> exists k :: 0 <= k < i && h.ops[k] == SoftDeleting(e, time)
  {
    var p := i - 1;
    assert h.tables[p + 1] == Next(h.ttl, h.tables[p], h.ops[p]);
    if e in h.tables[p] {
      MarksHaveOrigins(h, p, e, time);
    }
  }

  /** An unsubscription or a soft delete marks the row of its address with its time; a soft-deleted row stays as it is. */
  lemma MarkedNow(h: History, u: nat, e: string)
    requires h.Valid() && u < |h.ops| && e in h.tables[u]
    ensures var t, op := h.tables[u], h.ops[u];
            && (op == Unsubscribing(e, op.now) && t[e].deletedAt.None? ==>
                  h.tables[u + 1] == t[e := t[e].(confirmed := false, unsubscribedAt := Some(op.now))])
            && (op == SoftDeleting(e, op.now) && t[e].deletedAt.None? ==>
                  h.tables[u + 1] == t[e := t[e].(deletedAt := Some(op.now))])
            && ((op.Unsubscribing? || op.SoftDeleting?) && op.email == e && t[e].deletedAt.Some? ==>
                  h.tables[u + 1] == t)
  {
    assert h.tables[u + 1] == Next(h.ttl, h.tables[u], h.ops[u]);
  }

  /** A deletion mark, once set, changes no more and goes only with the row. */
  lemma {:induction false} DeletionMarkStays(h: History, u: nat, i: nat, e: string)
    requires h.Valid() && u <= i < |h.tables| && e in h.tables[u] && h.tables[u][e].deletedAt.Some?
    requires forall k :: u <= k < i ==> !h.Removes(k, e)
    ensures e in h.tables[i] && h.tables[i][e].deletedAt == h.tables[u][e].deletedAt
  {
    if u < i {
      var p := i - 1;
      assert h.tables[p + 1] == Next(h.ttl, h.tables[p], h.ops[p]);
      DeletionMarkStays(h, u, p, e);
      assert !h.Removes(p, e);
    }
  }

  /** Between operations u and k nothing issues a token to `e`, deletes its row or presents its token. */
  ghost predicate Undisturbed(h: History, e: string, u: nat, k: nat)
    requires h.Valid() && u < k < |h.tables| && e in h.tables[u]
  {
    forall i :: u < i < k ==>
      && !h.Issues(i, e) && !h.Removes(i, e)
      && !(h.ops[i].Confirming? && h.tables[u][e].token == Some(h.ops[i].token))
  }

  lemma {:induction false} UnsubscribedRowKept(h: History, e: string, u: nat, k: nat)
    requires h.Valid() && u < k < |h.tables| && e in h.tables[u] && h.tables[u][e].deletedAt.None?
    requires h.ops[u] == Unsubscribing(e, h.ops[u].now) && Undisturbed(h, e, u, k)
    ensures e in h.tables[k] && !h.tables[k][e].confirmed && h.tables[k][e].unsubscribedAt.Some?
    ensures h.tables[k][e].token == h.tables[u][e].token && h.tables[k][e].createdAt == h.tables[u][e].createdAt
  {
    var p := k - 1;
    assert h.tables[p + 1] == Next(h.ttl, h.tables[p], h.ops[p]);
    if u < p {
      UnsubscribedRowKept(h, e, u, p);
      assert !h.Issues(p, e) && !h.Removes(p, e);
    }
  }

  /**
   Unsubscribing does not withdraw a pending token: the next confirm undoes the
   unsubscription, without a new subscribe, exactly when it presents the token that
   was outstanding at the unsubscription, within its time to live.
   */
  lemma ConfirmUndoesUnsubscribeIff(h: History, e: string, u: nat, k: nat)
    requires h.Valid() && h.FreshTokens() && u < k < |h.ops| && e in h.tables[u] && h.tables[u][e].deletedAt.None?
    requires h.ops[u] == Unsubscribing(e, h.ops[u].now) && Undisturbed(h, e, u, k) && h.ops[k].Confirming?
    ensures e in h.tables[k + 1]
    ensures h.tables[k + 1][e].confirmed && h.tables[k + 1][e].unsubscribedAt.None? <==>
            exists j: nat :: h.Outstanding(u, e, h.ops[k].token, j) && h.ops[k].now < h.ops[j].now + h.ttl
  {
    UnsubscribedRowKept(h, e, u, k);
    assert h.tables[k + 1] == Next(h.ttl, h.tables[k], h.ops[k]);
    var row := h.tables[u][e];
    if Confirmable(h.tables[k][e], h.ops[k].token, h.ops[k].now, h.ttl) {
      var j := HeldTokenIsOutstanding(h, u, e);
      assert h.Outstanding(u, e, h.ops[k].token, j) && h.ops[k].now < h.ops[j].now + h.ttl;
    }
    if j: nat :| h.Outstanding(u, e, h.ops[k].token, j) && h.ops[k].now < h.ops[j].now + h.ttl {
      OutstandingTokenIsHeld(h, u, e, h.ops[k].token, j);
    }
  }

  // ---- Who can notice a cleanup ----

  /** What callers see: whether a subscribe sends a token, whether a confirm succeeds, what an export returns. */
  datatype Answer = Sent(bool) | Confirmed(bool) | Exported(Option<Row>)

  /** The answer of one operation; with `exports` off, the opt-in answers alone. */
  function Answers(exports: bool, ttl: nat, t: Table, op: Op): seq<Answer> {
    match op
    case Subscribing(email, _, _, _) => [Sent(!AlreadyActive(t, email))]
    case Confirming(token, now) => [Confirmed(Confirms(t, token, now, ttl))]
    case Exporting(email, _) => if exports then [Exported(Export(t, email))] else []
    case _ => []
  }

  function Observe(exports: bool, ttl: nat, t: Table, ops: seq<Op>): seq<Answer>
    decreases |ops|
  {
    if ops == [] then [] else Answers(exports, ttl, t, ops[0]) + Observe(exports, ttl, Next(ttl, t, ops[0]), ops[1..])
  }

  /** The operations without the cleanups among them. */
  function WithoutCleanup(ops: seq<Op>): seq<Op> {
    if ops == [] then []
    else (if ops[0].Cleaning? then [] else [ops[0]]) + WithoutCleanup(ops[1..])
  }

  /** Operations that can run from `t` at `clock`, none of them a soft delete. */
  ghost predicate Runnable(ttl: nat, t: Table, ops: seq<Op>, clock: int)
    decreases |ops|
  {
    ops != [] ==>
      && clock <= ops[0].now
      && !ops[0].SoftDeleting?
      && Enabled(ttl, t, ops[0])
      && Runnable(ttl, Next(ttl, t, ops[0]), ops[1..], ops[0].now)
  }

  /** `swept` lacks only rows of `full` that are stale at `clock` and not soft-deleted. */
  ghost predicate Swept(ttl: nat, full: Table, swept: Table, clock: int) {
    && (forall e :: e in swept ==> e in full && full[e] == swept[e])
    && (forall e :: e in full && e !in swept ==> Stale(full[e], clock, ttl) && full[e].deletedAt.None?)
  }

  ghost predicate NoneDeleted(t: Table) {
    forall e :: e in t ==> t[e].deletedAt.None?
  }

  /** Every cleanup among the operations deletes only rows that are not soft-deleted. */
  ghost predicate CleansUnmarked(ttl: nat, t: Table, ops: seq<Op>)
    decreases |ops|
  {
    ops != [] ==>
      && (ops[0].Cleaning? ==> forall e :: e in ops[0].chosen && e in t ==> t[e].deletedAt.None?)
      && CleansUnmarked(ttl, Next(ttl, t, ops[0]), ops[1..])
  }

  lemma {:induction false} NothingMarked(ttl: nat, t: Table, ops: seq<Op>, clock: int)
    requires NoneDeleted(t) && Runnable(ttl, t, ops, clock)
    ensures CleansUnmarked(ttl, t, ops)
    decreases |ops|
  {
    if ops != [] {
      NothingMarked(ttl, Next(ttl, t, ops[0]), ops[1..], ops[0].now);
    }
  }

  lemma SweptClean(ttl: nat, full: Table, swept: Table, chosen: set<string>, clock: int, now: int)
    requires Swept(ttl, full, swept, clock) && clock <= now && chosen <= StaleRows(swept, now, ttl)
    requires forall e :: e in chosen ==> swept[e].deletedAt.None?
    ensures Swept(ttl, full, swept - chosen, now)
  {
  }

  lemma SweptConfirm(ttl: nat, full: Table, swept: Table, token: string, now: int)
    requires Swept(ttl, full, swept, now)
    ensures Swept(ttl, Confirm(full, token, now, ttl), Confirm(swept, token, now, ttl), now)
    ensures Confirms(full, token, now, ttl) == Confirms(swept, token, now, ttl)
  {
  }

  lemma SweptStep(ttl: nat, full: Table, swept: Table, op: Op, clock: int)
    requires Swept(ttl, full, swept, clock) && clock <= op.now && !op.SoftDeleting? && !op.Cleaning?
    ensures Swept(ttl, Next(ttl, full, op), Next(ttl, swept, op), op.now)
    ensures Answers(false, ttl, full, op) == Answers(false, ttl, swept, op)
  {
    assert Swept(ttl, full, swept, op.now);
    if op.Confirming? {
      SweptConfirm(ttl, full, swept, op.token, op.now);
    }
  }

  lemma {:induction false} SweptRunsAgree(ttl: nat, full: Table, swept: Table, ops: seq<Op>, clock: int)
    requires Swept(ttl, full, swept, clock) && Runnable(ttl, swept, ops, clock) && CleansUnmarked(ttl, swept, ops)
    ensures Observe(false, ttl, swept, ops) == Observe(false, ttl, full, WithoutCleanup(ops))
    decreases |ops|
  {
    if ops == [] {
    } else if ops[0].Cleaning? {
      SweptClean(ttl, full, swept, ops[0].chosen, clock, ops[0].now);
      SweptRunsAgree(ttl, full, swept - ops[0].chosen, ops[1..], ops[0].now);
      assert WithoutCleanup(ops) == WithoutCleanup(ops[1..]);
    } else {
      SweptStep(ttl, full, swept, ops[0], clock);
      SweptRunsAgree(ttl, Next(ttl, full, ops[0]), Next(ttl, swept, ops[0]), ops[1..], ops[0].now);
      var kept := WithoutCleanup(ops);
      assert kept[0] == ops[0] && kept[1..] == WithoutCleanup(ops[1..]);
    }
  }

  /**
   Erasing every cleanup from a sequence of operations, whenever and however
   often it ran and whatever it chose, changes no subscribe and no confirm answer, as
   long as nothing is soft-deleted (no request handler does that).
   */
  lemma CleanupUnobservable(ttl: nat, t: Table, ops: seq<Op>, clock: int)
    requires NoneDeleted(t) && Runnable(ttl, t, ops, clock)
    ensures Observe(false, ttl, t, ops) == Observe(false, ttl, t, WithoutCleanup(ops))
  {
    NothingMarked(ttl, t, ops, clock);
    SweptRunsAgree(ttl, t, t, ops, clock);
  }

  /** Requests only: in order of time from `clock` on, no cleanup and no soft delete. */
  ghost predicate Requests(ops: seq<Op>, clock: int) {
    ops != [] ==>
      clock <= ops[0].now && !ops[0].SoftDeleting? && !ops[0].Cleaning? && Requests(ops[1..], ops[0].now)
  }

  lemma {:induction false} RequestsRunnable(ttl: nat, t: Table, ops: seq<Op>, clock: int)
    requires Requests(ops, clock)
    ensures Runnable(ttl, t, ops, clock) && CleansUnmarked(ttl, t, ops) && WithoutCleanup(ops) == ops
    decreases |ops|
  {
    if ops != [] {
      RequestsRunnable(ttl, Next(ttl, t, ops[0]), ops[1..], ops[0].now);
      assert ops == [ops[0]] + ops[1..];
    }
  }

  /** No sequence of later requests can tell the two tables apart, by all answers or by the opt-in answers. */
  ghost predicate Indistinguishable(exports: bool, ttl: nat, a: Table, b: Table, clock: int) {
    forall ops :: Requests(ops, clock) ==> Observe(exports, ttl, a, ops) == Observe(exports, ttl, b, ops)
  }

  /** Subscribe, confirm, subscribe again: the second subscribe tells whether a deletion mark survived. */
  function Probe(e: string, now: int): seq<Op> {
    [Subscribing(e, "", "x", now), Confirming("x", now), Subscribing(e, "", "y", now)]
  }

  lemma ProbeAnswers(ttl: nat, t: Table, e: string, now: int)
    requires ttl > 0 && !AlreadyActive(t, e)
    ensures Requests(Probe(e, now), now)
    ensures Observe(false, ttl, t, Probe(e, now))
            == [Sent(true), Confirmed(true), Sent(e in t && t[e].deletedAt.Some?)]
  {
    var ops := Probe(e, now);
    var t1 := Next(ttl, t, ops[0]);
    var t2 := Next(ttl, t1, ops[1]);
    assert Confirmable(t1[e], "x", now, ttl);
    assert AlreadyActive(t2, e) <==> t1[e].deletedAt.None?;
    assert ops[1..] == [ops[1], ops[2]] && ops[2..] == [ops[2]] && ops[1..][1..] == ops[2..];
    assert ops[2..][1..] == [];
    assert Requests(ops[2..], now) && Requests(ops[1..], now);
    assert Observe(false, ttl, t2, ops[2..]) == [Sent(!AlreadyActive(t2, e))];
    assert Observe(false, ttl, t1, ops[1..]) == [Confirmed(true)] + Observe(false, ttl, t2, ops[2..]);
  }

  /** A deleted row that carried a deletion mark is noticed by opting in anew, unless no token ever lives. */
  lemma MarkedRowNoticed(ttl: nat, t: Table, chosen: set<string>, now: int, e: string)
    requires ttl > 0 && chosen <= StaleRows(t, now, ttl) && e in chosen && t[e].deletedAt.Some?
    ensures !Indistinguishable(false, ttl, t, t - chosen, now)
  {
    ProbeAnswers(ttl, t, e, now);
    ProbeAnswers(ttl, t - chosen, e, now);
    assert Observe(false, ttl, t, Probe(e, now))[2] != Observe(false, ttl, t - chosen, Probe(e, now))[2];
  }

  lemma SubscribeExport(ttl: nat, t: Table, e: string, now: int)
    requires !AlreadyActive(t, e)
    ensures var ops := [Subscribing(e, "", "x", now), Exporting(e, now)];
            && Requests(ops, now)
            && Observe(true, ttl, t, ops) == [Sent(true), Exported(Export(UpsertPending(t, e, "", "x", now), e))]
  {
    var ops := [Subscribing(e, "", "x", now), Exporting(e, now)];
    assert ops[1..] == [Exporting(e, now)] && ops[1..][1..] == [];
    assert Requests(ops[1..], now);
    var t1 := UpsertPending(t, e, "", "x", now);
    assert Observe(true, ttl, t1, ops[1..]) == [Exported(Export(t1, e))];
  }

  /** Any deleted row is noticed by the data export: at once, or after subscribing anew if it was marked. */
  lemma DeletedRowNoticed(ttl: nat, t: Table, chosen: set<string>, now: int, e: string)
    requires chosen <= StaleRows(t, now, ttl) && e in chosen
    ensures !Indistinguishable(true, ttl, t, t - chosen, now)
  {
    if t[e].deletedAt.Some? {
      var ops := [Subscribing(e, "", "x", now), Exporting(e, now)];
      SubscribeExport(ttl, t, e, now);
      SubscribeExport(ttl, t - chosen, e, now);
      assert Observe(true, ttl, t, ops)[1] != Observe(true, ttl, t - chosen, ops)[1];
    } else {
      var ops := [Exporting(e, now)];
      assert ops[1..] == [] && Requests(ops[1..], now) && Requests(ops, now);
      assert Observe(true, ttl, t, ops) == [Exported(Some(t[e]))];
      assert Observe(true, ttl, t - chosen, ops) == [Exported(None)];
      assert Observe(true, ttl, t, ops)[0] != Observe(true, ttl, t - chosen, ops)[0];
    }
  }

  /** Where the tables differ, both hold no row or a pending one. */
  ghost predicate PendingApart(a: Table, b: Table, clock: int) {
    forall e :: (e in a || e in b) && !(e in a && e in b && a[e] == b[e]) ==>
      && (e in a ==> !a[e].confirmed && a[e].createdAt <= clock)
      && (e in b ==> !b[e].confirmed && b[e].createdAt <= clock)
  }

  lemma PendingApartSubscribe(a: Table, b: Table, email: string, source: string, token: string, now: int)
    requires PendingApart(a, b, now)
    ensures PendingApart(Subscribe(a, email, source, token, now), Subscribe(b, email, source, token, now), now)
    ensures AlreadyActive(a, email) == AlreadyActive(b, email)
  {
  }

  lemma PendingApartConfirm(a: Table, b: Table, token: string, now: int)
    requires PendingApart(a, b, now)
    ensures PendingApart(Confirm(a, token, now, 0), Confirm(b, token, now, 0), now)
    ensures Confirms(a, token, now, 0) == Confirms(b, token, now, 0)
  {
  }

  /** With a time to live of zero no pending row is ever confirmed, so the difference stays hidden. */
  lemma PendingApartStep(a: Table, b: Table, op: Op, clock: int)
    requires PendingApart(a, b, clock) && clock <= op.now && !op.Cleaning? && !op.SoftDeleting?
    ensures PendingApart(Next(0, a, op), Next(0, b, op), op.now)
    ensures Answers(false, 0, a, op) == Answers(false, 0, b, op)
  {
    assert PendingApart(a, b, op.now);
    if op.Subscribing? {
      PendingApartSubscribe(a, b, op.email, op.source, op.token, op.now);
    } else if op.Confirming? {
      PendingApartConfirm(a, b, op.token, op.now);
    }
  }

  lemma {:induction false} PendingApartRuns(a: Table, b: Table, ops: seq<Op>, clock: int)
    requires PendingApart(a, b, clock) && Requests(ops, clock)
    ensures Observe(false, 0, a, ops) == Observe(false, 0, b, ops)
    decreases |ops|
  {
    if ops != [] {
      PendingApartStep(a, b, ops[0], clock);
      PendingApartRuns(Next(0, a, ops[0]), Next(0, b, ops[0]), ops[1..], ops[0].now);
    }
  }

  /** A batch without deletion marks, or one in a service whose tokens never live, escapes the opt-in requests. */
  lemma OptInAgrees(ttl: nat, t: Table, chosen: set<string>, now: int, ops: seq<Op>)
    requires chosen <= StaleRows(t, now, ttl) && Requests(ops, now)
    requires ttl == 0 || forall e :: e in chosen ==> t[e].deletedAt.None?
    ensures Observe(false, ttl, t, ops) == Observe(false, ttl, t - chosen, ops)
  {
    if ttl == 0 {
      PendingApartRuns(t, t - chosen, ops, now);
    } else {
      RequestsRunnable(ttl, t - chosen, ops, now);
      SweptRunsAgree(ttl, t, t - chosen, ops, now);
    }
  }

  /**
   Subscribe and confirm requests alone fail to notice a cleanup exactly when none
   of the rows it deletes was soft-deleted, or the time to live is zero. (The upsert
   keeps the deletion mark of a row that is still there; after a cleanup there is none to keep.)
   */
  lemma OptInUnnoticedIff(ttl: nat, t: Table, chosen: set<string>, now: int)
    requires chosen <= StaleRows(t, now, ttl)
    ensures Indistinguishable(false, ttl, t, t - chosen, now) <==>
            ttl == 0 || forall e :: e in chosen ==> t[e].deletedAt.None?
  {
    if ttl == 0 || forall e :: e in chosen ==> t[e].deletedAt.None? {
      forall ops | Requests(ops, now)
        ensures Observe(false, ttl, t, ops) == Observe(false, ttl, t - chosen, ops)
      {
        OptInAgrees(ttl, t, chosen, now, ops);
      }
    } else {
      var e :| e in chosen && t[e].deletedAt.Some?;
      MarkedRowNoticed(ttl, t, chosen, now, e);
    }
  }

  /** With the data export among the requests, every cleanup that deletes anything can be noticed. */
  lemma CleanupUnnoticedIff(ttl: nat, t: Table, chosen: set<string>, now: int)
    requires chosen <= StaleRows(t, now, ttl)
    ensures Indistinguishable(true, ttl, t, t - chosen, now) <==> chosen == {}
  {
    if chosen == {} {
      assert t - chosen == t;
    } else {
      var e :| e in chosen;
      DeletedRowNoticed(ttl, t, chosen, now, e);
    }
  }

  /** A soft delete after the cleanup gives it away: the mark lands on a row only where the row remains. */
  lemma LaterSoftDeleteNotices(ttl: nat, t: Table, e: string, now: int)
    requires ttl > 0 && e in StaleRows(t, now, ttl)
    ensures var ops := [SoftDeleting(e, now)] + Probe(e, now);
            Observe(false, ttl, t, ops) != Observe(false, ttl, t - {e}, ops)
  {
    var ops := [SoftDeleting(e, now)] + Probe(e, now);
    assert ops[1..] == Probe(e, now);
    ProbeAnswers(ttl, Next(ttl, t, ops[0]), e, now);
    ProbeAnswers(ttl, Next(ttl, t - {e}, ops[0]), e, now);
    assert Observe(false, ttl, t, ops)[2] != Observe(false, ttl, t - {e}, ops)[2];
  }
}
