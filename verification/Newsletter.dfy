/**
 The newsletter double opt-in: subscriber rows, confirmation tokens with a time
 to live, unsubscription, deletion, and the background cleanup of rows that
 were never confirmed.
 */
module Newsletter {
  import opened Common

  datatype Row = Row(
    source: string,
    confirmed: bool,
    token: Option<string>,
    createdAt: int,
    confirmedAt: Option<int>,
    unsubscribedAt: Option<int>,
    deletedAt: Option<int>)

  /** One row per address. */
  type Table = map<string, Row>

  // ---- Row transitions ----

  /** The lookup behind the subscribe decision sees only rows that are not soft-deleted. */
  predicate AlreadyActive(t: Table, email: string) {
    email in t && t[email].deletedAt.None? && t[email].confirmed && t[email].unsubscribedAt.None?
  }

  /** The upsert leaves an existing deletion mark in place. */
  function UpsertPending(t: Table, email: string, source: string, token: string, now: int): Table {
    t[email := Row(source, false, Some(token), now, None, None, if email in t then t[email].deletedAt else None)]
  }

  function Subscribe(t: Table, email: string, source: string, token: string, now: int): Table {
    if AlreadyActive(t, email) then t else UpsertPending(t, email, source, token, now)
  }

  predicate Confirmable(r: Row, token: string, now: int, ttl: nat) {
    r.token == Some(token) && r.createdAt > now - ttl
  }

  function ConfirmRow(r: Row, token: string, now: int, ttl: nat): Row {
    if Confirmable(r, token, now, ttl)
    then r.(confirmed := true, token := None, confirmedAt := Some(now), unsubscribedAt := None) else r
  }

  function Confirm(t: Table, token: string, now: int, ttl: nat): Table {
    map e | e in t :: ConfirmRow(t[e], token, now, ttl)
  }

  predicate Confirms(t: Table, token: string, now: int, ttl: nat) {
    exists e :: e in t && Confirmable(t[e], token, now, ttl)
  }

  function Unsubscribe(t: Table, email: string, now: int): Table {
    if email in t && t[email].deletedAt.None?
    then t[email := t[email].(unsubscribedAt := Some(now), confirmed := false)] else t
  }

  function SoftDelete(t: Table, email: string, now: int): Table {
    if email in t && t[email].deletedAt.None? then t[email := t[email].(deletedAt := Some(now))] else t
  }

  /** The data export answers with the row unless it is missing or soft-deleted. */
  function Export(t: Table, email: string): Option<Row> {
    if email in t && t[email].deletedAt.None? then Some(t[email]) else None
  }

  predicate Stale(r: Row, now: int, ttl: nat) {
    !r.confirmed && r.createdAt <= now - ttl
  }

  /** The rows the cleanup statement selects before its limit applies. */
  function StaleRows(t: Table, now: int, ttl: nat): set<string> {
    set e | e in t && Stale(t[e], now, ttl)
  }

  datatype Op =
    | Subscribing(email: string, source: string, token: string, now: int)
    | Confirming(token: string, now: int)
    | Unsubscribing(email: string, now: int)
    | SoftDeleting(email: string, now: int)
    | Erasing(email: string, now: int)
    | Exporting(email: string, now: int)
    | Cleaning(chosen: set<string>, now: int)

  function Next(ttl: nat, t: Table, op: Op): Table {
    match op
    case Subscribing(email, source, token, now) => Subscribe(t, email, source, token, now)
    case Confirming(token, now) => Confirm(t, token, now, ttl)
    case Unsubscribing(email, now) => Unsubscribe(t, email, now)
    case SoftDeleting(email, now) => SoftDelete(t, email, now)
    case Erasing(email, _) => t - {email}
    case Exporting(_, _) => t
    case Cleaning(chosen, _) => t - chosen
  }

  /** A cleanup batch is some set of stale rows; the limit and the choice are the database's. */
  predicate Enabled(ttl: nat, t: Table, op: Op) {
    op.Cleaning? ==> op.chosen <= StaleRows(t, op.now, ttl)
  }

  class NewsletterTable {
    var rows: Table

    constructor ()
      ensures rows == map[]
    {
      rows := map[];
    }

    /** The subscribe decision of the handler: look the address up, then upsert unless it is active. */
    method HandleSubscribe(email: string, source: string, token: string, now: int) returns (sent: bool)
      modifies this
      ensures rows == Subscribe(old(rows), email, source, token, now)
      ensures sent <==> !AlreadyActive(old(rows), email)
    {
      var existing := if email in rows && rows[email].deletedAt.None? then Some(rows[email]) else None;
      if existing.Some? && existing.value.confirmed && existing.value.unsubscribedAt.None? {
        return false;
      }
      if email in rows {
        rows := rows[email := rows[email].(
          source := source, confirmed := false, token := Some(token), createdAt := now,
          confirmedAt := None, unsubscribedAt := None)];
      } else {
        rows := rows[email := Row(source, false, Some(token), now, None, None, None)];
      }
      return true;
    }

    method ConfirmByToken(token: string, now: int, ttl: nat) returns (updated: bool)
      modifies this
      ensures rows == Confirm(old(rows), token, now, ttl)
      ensures updated <==> Confirms(old(rows), token, now, ttl)
    {
      var hits := set e | e in rows && rows[e].token == Some(token) && rows[e].createdAt > now - ttl;
      rows := map e | e in rows ::
        if e in hits
        then rows[e].(confirmed := true, token := None, confirmedAt := Some(now), unsubscribedAt := None)
        else rows[e];
      updated := hits != {};
      if hits != {} {
        var e :| e in hits;
        assert Confirmable(old(rows)[e], token, now, ttl);
      }
      assert forall e :: e in old(rows) && Confirmable(old(rows)[e], token, now, ttl) ==> e in hits;
    }

    method HandleUnsubscribe(email: string, now: int) returns (updated: bool)
      modifies this
      ensures rows == Unsubscribe(old(rows), email, now)
      ensures updated <==> email in old(rows) && old(rows)[email].deletedAt.None?
    {
      updated := email in rows && rows[email].deletedAt.None?;
      if updated {
        rows := rows[email := rows[email].(unsubscribedAt := Some(now), confirmed := false)];
      }
    }

    method MarkDeleted(email: string, now: int) returns (updated: bool)
      modifies this
      ensures rows == SoftDelete(old(rows), email, now)
      ensures updated <==> email in old(rows) && old(rows)[email].deletedAt.None?
    {
      updated := email in rows && rows[email].deletedAt.None?;
      if updated {
        rows := rows[email := rows[email].(deletedAt := Some(now))];
      }
    }

    method Erase(email: string) returns (deleted: bool)
      modifies this
      ensures rows == old(rows) - {email}
      ensures deleted <==> email in old(rows)
    {
      deleted := email in rows;
      rows := rows - {email};
    }

    /** The lookup behind the data export. */
    method ExportRow(email: string) returns (r: Option<Row>)
      ensures r == Export(rows, email)
      ensures r.Some? <==> email in rows && rows[email].deletedAt.None?
      ensures r.Some? ==> r.value == rows[email]
    {
      r := if email in rows && rows[email].deletedAt.None? then Some(rows[email]) else None;
    }

    /** Deletes at most `batch` stale rows; which ones is up to the database. */
    method DeleteExpiredPending(now: int, ttl: nat, batch: nat) returns (deleted: nat, ghost chosen: set<string>)
      modifies this
      ensures chosen <= StaleRows(old(rows), now, ttl)
      ensures rows == old(rows) - chosen
      ensures deleted == |chosen| == Min(batch, |StaleRows(old(rows), now, ttl)|)
    {
      var stale := set e | e in rows && Stale(rows[e], now, ttl);
      var picked: set<string> := {};
      while |picked| < batch && picked != stale
        invariant picked <= stale && |picked| <= batch
        decreases batch - |picked|
      {
        assert stale - picked != {};
        var e :| e in stale - picked;
        picked := picked + {e};
      }
      SubsetSize(picked, stale);
      if picked != stale {
        ProperSubsetSize(picked, stale);
      }
      rows := rows - picked;
      return |picked|, picked;
    }

    /** Repeats a batch of at least one row until nothing is deleted. */
    method Drain(now: int, ttl: nat, batch: nat) returns (calls: nat, total: nat)
      requires batch >= 1
      modifies this
      ensures rows == old(rows) - StaleRows(old(rows), now, ttl)
      ensures forall e :: e in rows <==> e in old(rows) && (old(rows)[e].confirmed || now < old(rows)[e].createdAt + ttl)
      ensures total == |StaleRows(old(rows), now, ttl)|
      ensures calls == Ceiling(total, batch) + 1
    {
      calls, total := 0, 0;
      ghost var all := StaleRows(rows, now, ttl);
      ghost var gone: set<string> := {};
      var deleted := batch;
      while deleted > 0
        invariant gone <= all && rows == old(rows) - gone && total == |gone|
        invariant deleted > 0 ==> total == Min(calls * batch, |all|) && (calls > 0 ==> (calls - 1) * batch < |all|)
        invariant deleted == 0 ==> gone == all && calls == Ceiling(|all|, batch) + 1
        decreases deleted > 0, |all - gone|
      {
        ghost var chosen;
        StaleAfter(old(rows), gone, now, ttl);
        Disjoint(all, gone, {});
        deleted, chosen := DeleteExpiredPending(now, ttl, batch);
        Disjoint(all, gone, chosen);
        RemoveTwice(old(rows), gone, chosen);
        gone := gone + chosen;
        total := total + deleted;
        DrainCount(|all|, batch, calls, deleted);
        calls := calls + 1;
      }
    }
  }

  function Ceiling(n: nat, d: nat): nat
    requires d >= 1
  {
    (n + d - 1) / d
  }

  lemma StaleAfter(t: Table, gone: set<string>, now: int, ttl: nat)
    ensures StaleRows(t - gone, now, ttl) == StaleRows(t, now, ttl) - gone
  {
  }

  lemma Disjoint(all: set<string>, gone: set<string>, chosen: set<string>)
    requires gone <= all && chosen <= all - gone
    ensures |gone + chosen| == |gone| + |chosen|
    ensures |all - gone| == |all| - |gone|
    ensures |all - (gone + chosen)| == |all| - |gone| - |chosen|
    ensures |all - (gone + chosen)| == 0 ==> gone + chosen == all
  {
  }

  /** Full batches come first, then one partial batch if any, then the empty one that ends the loop. */
  lemma DrainCount(n: nat, batch: nat, calls: nat, deleted: nat)
    requires batch >= 1
    requires deleted == Min(batch, n - Min(calls * batch, n)) && (calls > 0 ==> (calls - 1) * batch < n)
    ensures (calls + 1) * batch == calls * batch + batch
    ensures deleted > 0 ==> Min(calls * batch, n) + deleted == Min((calls + 1) * batch, n) && calls * batch < n
    ensures deleted == 0 ==> calls == Ceiling(n, batch)
  {
    assert (calls + 1) * batch == calls * batch + batch;
    if deleted == 0 {
      if calls > 0 {
        assert (calls - 1) * batch == calls * batch - batch;
      }
      QuotientIs(n + batch - 1, batch, calls);
    }
  }
}
