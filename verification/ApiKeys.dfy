/**
 API key rotation with an overlap window, key validation, and the background
 deletion of expired keys.
 */
module ApiKeys {
  import opened Common

  const DAY: int := 86400

  datatype Key = Key(keyLabel: string, createdAt: int, expiresAt: Option<int>, revokedAt: Option<int>)

  /** Keys by the hash of the raw key. */
  type Keys = map<string, Key>

  predicate Active(k: Key, now: int) {
    k.revokedAt.None? && (k.expiresAt.None? || k.expiresAt.value > now)
  }

  function Validate(keys: Keys, hash: string, now: int): Option<Key> {
    if hash in keys && Active(keys[hash], now) then Some(keys[hash]) else None
  }

  /** One rotation request; its three database visits read the clock in this order. */
  datatype Rotation = Rotation(
    keyLabel: string, overlapDays: Option<nat>, newHash: string, listedAt: int, clockAt: int, insertedAt: int)
  {
    function ExpiresAt(): int {
      clockAt + Max(overlapDays.GetOr(7), 1) * DAY
    }

    predicate Touches(k: Key) {
      k.keyLabel == keyLabel && Active(k, listedAt)
    }

    predicate Ordered() {
      listedAt <= clockAt <= insertedAt
    }
  }

  /** Schedules the expiry of the keys among `hashes` that the rotation touches. */
  function Schedule(keys: Keys, r: Rotation, hashes: set<string>): Keys {
    map h | h in keys ::
      if h in hashes && r.Touches(keys[h]) then keys[h].(expiresAt := Some(r.ExpiresAt())) else keys[h]
  }

  function Rotate(keys: Keys, r: Rotation): Keys {
    Schedule(keys, r, keys.Keys)[r.newHash := Key(r.keyLabel, r.insertedAt, None, None)]
  }

  /** The old key's new expiry that the response reports, if there was an old key. */
  function Reported(keys: Keys, r: Rotation): Option<int> {
    if exists h :: h in keys && r.Touches(keys[h]) then Some(r.ExpiresAt()) else None
  }

  predicate Expired(k: Key, now: int) {
    k.expiresAt.Some? && k.expiresAt.value <= now
  }

  function DeleteExpired(keys: Keys, now: int): Keys {
    map h | h in keys && !Expired(keys[h], now) :: keys[h]
  }

  /** Setting the expiry of the touched keys on a list, one update after the other. */
  function ScheduleEach(keys: Keys, r: Rotation, hashes: seq<string>): Keys {
    if hashes == [] then keys
    else
      var k := |hashes| - 1;
      var before := ScheduleEach(keys, r, hashes[..k]);
      if Labelled(before, r, hashes[k])
      then before[hashes[k] := before[hashes[k]].(expiresAt := Some(r.ExpiresAt()))] else before
  }

  predicate Labelled(keys: Keys, r: Rotation, h: string) {
    h in keys && keys[h].keyLabel == r.keyLabel
  }

  /** Did the loop meet a key of the label? */
  predicate AnyLabelled(keys: Keys, r: Rotation, hashes: seq<string>) {
    hashes != [] && (AnyLabelled(keys, r, hashes[..|hashes| - 1]) || Labelled(keys, r, hashes[|hashes| - 1]))
  }

  lemma {:induction false} AnyLabelledIff(keys: Keys, r: Rotation, hashes: seq<string>)
    ensures AnyLabelled(keys, r, hashes) <==> exists h :: h in hashes && Labelled(keys, r, h)
  {
    if hashes != [] {
      var k := |hashes| - 1;
      AnyLabelledIff(keys, r, hashes[..k]);
      assert forall h :: h in hashes <==> h in hashes[..k] || h == hashes[k];
    }
  }

  /** The active keys, each once, the most recently created first. */
  ghost predicate ListsActive(keys: Keys, now: int, hashes: seq<string>) {
    && (forall h :: h in hashes <==> h in keys && Active(keys[h], now))
    && NoDuplicates(hashes)
    && NewestFirst(keys, hashes)
  }

  ghost predicate NewestFirst(keys: Keys, hashes: seq<string>) {
    forall i, j :: 0 <= i < j < |hashes| && hashes[i] in keys && hashes[j] in keys ==>
      keys[hashes[i]].createdAt >= keys[hashes[j]].createdAt
  }

  /** Part of the listing is done; the keys in `todo` come after it. */
  ghost predicate Listing(keys: Keys, now: int, hashes: seq<string>, todo: set<string>) {
    && (forall h :: h in hashes || h in todo <==> h in keys && Active(keys[h], now))
    && (forall h :: h in hashes ==> h !in todo)
    && NoDuplicates(hashes)
    && NewestFirst(keys, hashes)
    && (forall g, h :: g in todo && h in hashes ==> keys[g].createdAt <= keys[h].createdAt)
  }

  lemma ListOneMore(keys: Keys, now: int, hashes: seq<string>, todo: set<string>, h: string)
    requires Listing(keys, now, hashes, todo) && h in todo
    requires forall g :: g in todo ==> keys[g].createdAt <= keys[h].createdAt
    ensures Listing(keys, now, hashes + [h], todo - {h})
  {
    var more := hashes + [h];
    assert forall i :: 0 <= i < |hashes| ==> more[i] == hashes[i] && more[i] in hashes;
    assert more[|hashes|] == h;
    assert forall g :: g in more <==> g in hashes || g == h;
  }

  lemma {:induction false} NewestExists(keys: Keys, hashes: set<string>) returns (h: string)
    requires hashes != {} && hashes <= keys.Keys
    ensures h in hashes && forall g :: g in hashes ==> keys[g].createdAt <= keys[h].createdAt
  {
    h :| h in hashes;
    var rest := hashes - {h};
    assert forall g :: g in hashes ==> g == h || g in rest;
    if rest != {} {
      var other := NewestExists(keys, rest);
      if keys[other].createdAt > keys[h].createdAt {
        h := other;
      }
    }
  }

  lemma ScheduleOneMore(keys: Keys, r: Rotation, done: set<string>, h: string)
    requires h in keys && Active(keys[h], r.listedAt)
    ensures var before := Schedule(keys, r, done);
            Schedule(keys, r, done + {h})
            == if keys[h].keyLabel == r.keyLabel
               then before[h := before[h].(expiresAt := Some(r.ExpiresAt()))] else before
  {
  }

  lemma {:induction false} ScheduleEachIs(keys: Keys, r: Rotation, hashes: seq<string>)
    requires forall h :: h in hashes ==> h in keys && Active(keys[h], r.listedAt)
    ensures ScheduleEach(keys, r, hashes) == Schedule(keys, r, set h | h in hashes)
  {
    if hashes != [] {
      var k := |hashes| - 1;
      ScheduleEachIs(keys, r, hashes[..k]);
      var some := set h | h in hashes[..k];
      ScheduleOneMore(keys, r, some, hashes[k]);
      assert (set h | h in hashes) == some + {hashes[k]};
    }
  }

  /** Updating the listed active keys one by one schedules every key the rotation touches. */
  lemma ScheduleActive(keys: Keys, r: Rotation, hashes: seq<string>)
    requires ListsActive(keys, r.listedAt, hashes)
    ensures ScheduleEach(keys, r, hashes) == Schedule(keys, r, keys.Keys)
    ensures AnyLabelled(keys, r, hashes) <==> Reported(keys, r).Some?
  {
    ScheduleEachIs(keys, r, hashes);
    AnyLabelledIff(keys, r, hashes);
    assert forall h :: h in keys && r.Touches(keys[h]) <==> h in hashes && Labelled(keys, r, h);
  }

  lemma InterruptedIsSchedule(keys: Keys, r: Rotation, listed: seq<string>, reached: nat)
    requires ListsActive(keys, r.listedAt, listed) && reached <= |listed|
    ensures ScheduleEach(keys, r, listed[..reached]) == Schedule(keys, r, set h | h in listed[..reached])
  {
    ScheduleEachIs(keys, r, listed[..reached]);
  }

  lemma {:induction false} ScheduleKeepsLabels(keys: Keys, r: Rotation, hashes: seq<string>)
    ensures ScheduleEach(keys, r, hashes).Keys == keys.Keys
    ensures forall h :: h in keys ==> ScheduleEach(keys, r, hashes)[h].keyLabel == keys[h].keyLabel
  {
    if hashes != [] {
      ScheduleKeepsLabels(keys, r, hashes[..|hashes| - 1]);
    }
  }

  /** Which statements of a rotation fail; a failed write may still have landed. */
  datatype Faults = Faults(listing: bool, updates: nat -> Write, insert: Write) {
    ghost predicate Absent() {
      listing && insert.Stored? && forall i :: updates(i).Stored?
    }
  }

  class ApiKeyTable {
    var keys: Keys

    constructor ()
      ensures keys == map[]
    {
      keys := map[];
    }

    method ValidateKey(hash: string, now: int) returns (r: Option<Key>)
      ensures r == Validate(keys, hash, now)
    {
      if hash in keys && keys[hash].revokedAt.None? && (keys[hash].expiresAt.None? || keys[hash].expiresAt.value > now) {
        return Some(keys[hash]);
      }
      return None;
    }

    method ListActive(now: int) returns (hashes: seq<string>)
      ensures ListsActive(keys, now, hashes)
    {
      var todo := set h | h in keys && Active(keys[h], now);
      hashes := [];
      while todo != {}
        invariant Listing(keys, now, hashes, todo)
        decreases |todo|
      {
        ghost var newest := NewestExists(keys, todo);
        var h :| h in todo && forall g :: g in todo ==> keys[g].createdAt <= keys[h].createdAt;
        ListOneMore(keys, now, hashes, todo, h);
        todo := todo - {h};
        hashes := hashes + [h];
      }
    }

    /** The loop over the listed keys; it stops at the first update that reports failure. */
    method ScheduleExpiry(r: Rotation, hashes: seq<string>, updates: nat -> Write)
      returns (result: Result<Option<int>, ()>, ghost reached: nat)
      modifies this
      ensures reached <= |hashes| && keys == ScheduleEach(old(keys), r, hashes[..reached])
      ensures result.Ok? ==> reached == |hashes|
      ensures result.Ok? ==> result.value == if AnyLabelled(old(keys), r, hashes) then Some(r.ExpiresAt()) else None
      ensures (forall i :: updates(i).Stored?) ==> result.Ok?
    {
      var days := if r.overlapDays.GetOr(7) >= 1 then r.overlapDays.GetOr(7) else 1;
      var expiresAt := r.clockAt + days * DAY;
      var oldExpiresAt: Option<int> := None;
      for i := 0 to |hashes|
        invariant keys == ScheduleEach(old(keys), r, hashes[..i])
        invariant oldExpiresAt == if AnyLabelled(old(keys), r, hashes[..i]) then Some(r.ExpiresAt()) else None
      {
        assert hashes[..i + 1][..i] == hashes[..i];
        ScheduleKeepsLabels(old(keys), r, hashes[..i]);
        if Labelled(keys, r, hashes[i]) {
          if updates(i).Landed() {
            keys := keys[hashes[i] := keys[hashes[i]].(expiresAt := Some(expiresAt))];
          }
          if !updates(i).Stored? {
            return Err(()), if updates(i).Landed() then i + 1 else i;
          }
          oldExpiresAt := Some(expiresAt);
        }
      }
      assert hashes[..|hashes|] == hashes;
      return Ok(oldExpiresAt), |hashes|;
    }

    /**
     A rotation request under database failures. `done` is what it did to the
     table: a completed rotation, or one interrupted after `reached` listed keys.
     */
    method RotateKey(r: Rotation, faults: Faults)
      returns (result: Result<Option<int>, ()>, ghost done: Op, ghost listed: seq<string>, ghost reached: nat)
      modifies this
      ensures ListsActive(old(keys), r.listedAt, listed) && reached <= |listed|
      ensures done == Rotating(r) || done == Interrupted(r, set h | h in listed[..reached])
      ensures keys == Next(old(keys), done)
      ensures result.Ok? ==> done == Rotating(r) && result.value == Reported(old(keys), r)
      ensures done == Rotating(r) ==> r.newHash !in old(keys)
      ensures faults.Absent() && r.newHash !in old(keys) ==> result.Ok?
    {
      var hashes := ListActive(r.listedAt);
      listed, reached := hashes, 0;
      done := Interrupted(r, {});
      if !faults.listing {
        InterruptedIsSchedule(keys, r, listed, 0);
        return Err(()), done, listed, reached;
      }
      ScheduleActive(keys, r, hashes);
      var scheduled;
      scheduled, reached := ScheduleExpiry(r, hashes, faults.updates);
      InterruptedIsSchedule(old(keys), r, listed, reached);
      done := Interrupted(r, set h | h in listed[..reached]);
      if scheduled.Err? || r.newHash in keys {
        return Err(()), done, listed, reached;
      }
      if faults.insert.Landed() {
        keys := keys[r.newHash := Key(r.keyLabel, r.insertedAt, None, None)];
        assert listed[..|listed|] == listed;
        done := Rotating(r);
      }
      result := if faults.insert.Stored? then scheduled else Err(());
    }

    method DeleteExpiredKeys(now: int) returns (deleted: nat)
      modifies this
      ensures keys == DeleteExpired(old(keys), now)
      ensures forall h :: h in keys <==>
                h in old(keys) && (old(keys)[h].expiresAt.Some? ==> old(keys)[h].expiresAt.value > now)
      ensures deleted == |old(keys)| - |keys|
    {
      var gone := set h | h in keys && keys[h].expiresAt.Some? && keys[h].expiresAt.value <= now;
      ghost var kept := keys.Keys - gone;
      assert keys.Keys == kept + gone;
      keys := keys - gone;
      assert keys.Keys == kept;
      deleted := |gone|;
    }
  }

  // ---- Runs ----

  datatype Op =
    | Rotating(rotation: Rotation)
    | Interrupted(rotation: Rotation, updated: set<string>)
    | Cleaning(now: int)
    | Checking(hash: string, now: int)
  {
    function Start(): int { if Rotating? || Interrupted? then rotation.listedAt else now }
    function End(): int { if Rotating? || Interrupted? then rotation.insertedAt else now }

    /** A completed rotation of the label. */
    predicate Rotates(keyLabel: string) { Rotating? && rotation.keyLabel == keyLabel }

    /** An interrupted rotation of the label that had already updated key `h`. */
    predicate Reaches(keyLabel: string, h: string) {
      Interrupted? && rotation.keyLabel == keyLabel && h in updated
    }

    /** The operation sets a new expiry on key `h`. */
    predicate Updates(keys: Keys, h: string) {
      && (Rotating? || (Interrupted? && h in updated))
      && h in keys && keys[h].keyLabel == rotation.keyLabel && keys[h].revokedAt.None?
      && (keys[h].expiresAt.Some? ==> keys[h].expiresAt.value > rotation.listedAt)
    }
  }

  function Next(keys: Keys, op: Op): Keys {
    match op
    case Rotating(r) => Rotate(keys, r)
    case Interrupted(r, updated) => Schedule(keys, r, updated)
    case Cleaning(now) => DeleteExpired(keys, now)
    case Checking(_, _) => keys
  }

  /**
   A run from any table: completed rotations with hashes never used before,
   rotations interrupted anywhere, cleanups and checks, in order of time.
   */
  ghost predicate Run(tables: seq<Keys>, ops: seq<Op>) {
    && |tables| == |ops| + 1
    && (forall i :: 0 <= i < |ops| ==> tables[i + 1] == Next(tables[i], ops[i]))
    && (forall i :: 0 <= i < |ops| && (ops[i].Rotating? || ops[i].Interrupted?) ==> ops[i].rotation.Ordered())
    && (forall i, k :: 0 <= k <= i < |ops| && ops[i].Rotating? ==> ops[i].rotation.newHash !in tables[k])
    && (forall i, j :: 0 <= i < j < |ops| ==> ops[i].End() <= ops[j].Start())
  }

  /** An unrevoked key of `label` that has no expiry. */
  predicate Lasting(keys: Keys, keyLabel: string, h: string) {
    h in keys && keys[h].keyLabel == keyLabel && keys[h].revokedAt.None? && keys[h].expiresAt.None?
  }

  /** What one operation does to the lasting keys of a label. */
  lemma LastingStep(keys: Keys, op: Op, keyLabel: string, h: string)
    requires op.Rotating? ==> op.rotation.newHash !in keys
    ensures Lasting(Next(keys, op), keyLabel, h) <==>
            if op.Rotates(keyLabel) then h == op.rotation.newHash
            else Lasting(keys, keyLabel, h) && !op.Reaches(keyLabel, h)
  {
    if Lasting(keys, keyLabel, h) && (op.Rotates(keyLabel) || op.Reaches(keyLabel, h)) {
      assert op.rotation.Touches(keys[h]);
    }
  }

  /** Since completed rotation `l` of the label, no interrupted rotation got as far as its new key. */
  ghost predicate Unreached(ops: seq<Op>, l: nat, j: nat, keyLabel: string)
    requires l < j <= |ops| && ops[l].Rotating?
  {
    forall k :: l < k < j ==> !ops[k].Reaches(keyLabel, ops[l].rotation.newHash)
  }

  /**
   After the latest completed rotation of a label, only its new key can be without
   expiry, and it is so exactly until an interrupted rotation updates it.
   */
  lemma {:induction false} LastingKeyIff(tables: seq<Keys>, ops: seq<Op>, l: nat, j: nat, keyLabel: string, h: string)
    requires Run(tables, ops) && l < j < |tables| && ops[l].Rotates(keyLabel)
    requires forall k :: l < k < j ==> !ops[k].Rotates(keyLabel)
    ensures Lasting(tables[j], keyLabel, h) <==> h == ops[l].rotation.newHash && Unreached(ops, l, j, keyLabel)
    ensures Lasting(tables[j], keyLabel, h) ==> tables[j][h].createdAt == ops[l].rotation.insertedAt
  {
    var p := j - 1;
    assert tables[p + 1] == Next(tables[p], ops[p]);
    LastingStep(tables[p], ops[p], keyLabel, h);
    if l < p {
      LastingKeyIff(tables, ops, l, p, keyLabel, h);
      assert !ops[p].Rotates(keyLabel);
    }
  }

  /** Some key of the label validates at `now`. */
  ghost predicate Served(keys: Keys, keyLabel: string, now: int) {
    exists h :: Validate(keys, h, now).Some? && keys[h].keyLabel == keyLabel
  }

  /** Without a lasting key a label is served only up to some time. */
  lemma {:induction false} ServiceEnds(keys: Keys, keyLabel: string, hashes: set<string>) returns (end: int)
    requires hashes <= keys.Keys
    requires forall h :: h in hashes ==> !Lasting(keys, keyLabel, h)
    ensures forall h, now :: h in hashes && keys[h].keyLabel == keyLabel && now >= end ==> Validate(keys, h, now).None?
  {
    end := 0;
    if hashes != {} {
      var h :| h in hashes;
      end := ServiceEnds(keys, keyLabel, hashes - {h});
      if keys[h].expiresAt.Some? && keys[h].expiresAt.value > end {
        end := keys[h].expiresAt.value;
      }
    }
  }

  /**
   After a label's latest completed rotation some key of it validates at every
   time exactly when no interrupted rotation since has updated the new key.
   */
  lemma AlwaysServedIff(tables: seq<Keys>, ops: seq<Op>, l: nat, j: nat, keyLabel: string)
    requires Run(tables, ops) && l < j < |tables| && ops[l].Rotates(keyLabel)
    requires forall k :: l < k < j ==> !ops[k].Rotates(keyLabel)
    ensures (forall now :: Served(tables[j], keyLabel, now)) <==> Unreached(ops, l, j, keyLabel)
  {
    var key := ops[l].rotation.newHash;
    LastingKeyIff(tables, ops, l, j, keyLabel, key);
    if Unreached(ops, l, j, keyLabel) {
      forall now
        ensures Served(tables[j], keyLabel, now)
      {
        assert Validate(tables[j], key, now) == Some(tables[j][key]);
      }
    } else {
      forall h
        ensures !Lasting(tables[j], keyLabel, h)
      {
        LastingKeyIff(tables, ops, l, j, keyLabel, h);
      }
      var end := ServiceEnds(tables[j], keyLabel, tables[j].Keys);
      assert !Served(tables[j], keyLabel, end);
    }
  }

  /** An interruption leaves the label a lasting key exactly when it did not update all of them. */
  lemma InterruptionKeepsLastingIff(keys: Keys, r: Rotation, updated: set<string>)
    ensures (exists h :: Lasting(Schedule(keys, r, updated), r.keyLabel, h)) <==>
            exists h :: Lasting(keys, r.keyLabel, h) && h !in updated
  {
    forall h
      ensures Lasting(Schedule(keys, r, updated), r.keyLabel, h) <==> Lasting(keys, r.keyLabel, h) && h !in updated
    {
      LastingStep(keys, Interrupted(r, updated), r.keyLabel, h);
    }
  }

  /** The overlap in days: seven unless the request gives a number, and at least one. */
  ghost function Overlap(requested: Option<nat>): nat {
    match requested
    case None => 7
    case Some(days) => if days == 0 then 1 else days
  }

  /**
   The overlap window: a key validates exactly until the last rotation to update it,
   completed or not, lies the requested number of days back.
   */
  lemma {:induction false} OverlapWindow(tables: seq<Keys>, ops: seq<Op>, i: nat, j: nat, h: string, now: int)
    requires Run(tables, ops) && i < j < |tables| && ops[i].Updates(tables[i], h)
    requires forall k :: i < k < j ==> !ops[k].Updates(tables[k], h)
    requires forall k :: i <= k < j ==> ops[k].End() <= now
    ensures var end := ops[i].rotation.clockAt + 86400 * Overlap(ops[i].rotation.overlapDays);
            && (Validate(tables[j], h, now).Some? <==> now < end)
            && (h in tables[j] ==> tables[j][h] == tables[i][h].(expiresAt := Some(end)))
  {
    var p := j - 1;
    assert tables[p + 1] == Next(tables[p], ops[p]);
    if i < p {
      OverlapWindow(tables, ops, i, p, h, now);
      assert !ops[p].Updates(tables[p], h);
      assert ops[p].End() <= now;
    }
  }

  /** The response names the end of that window exactly when the label had an active key. */
  lemma ReportedIff(keys: Keys, r: Rotation, end: int)
    ensures Reported(keys, r) == Some(end) <==>
            && end == r.clockAt + 86400 * Overlap(r.overlapDays)
            && exists h :: h in keys && keys[h].keyLabel == r.keyLabel && keys[h].revokedAt.None?
                           && (keys[h].expiresAt.Some? ==> keys[h].expiresAt.value > r.listedAt)
  {
    if h :| h in keys && keys[h].keyLabel == r.keyLabel && keys[h].revokedAt.None?
            && (keys[h].expiresAt.Some? ==> keys[h].expiresAt.value > r.listedAt) {
      assert r.Touches(keys[h]);
    }
  }

  /** Whatever runs, a key that no rotation updates validates as it did before: rotations of other labels, too. */
  lemma {:induction false} UntouchedKeyKept(tables: seq<Keys>, ops: seq<Op>, i: nat, j: nat, h: string, now: int)
    requires Run(tables, ops) && i <= j < |tables| && h in tables[i]
    requires forall k :: i <= k < j ==> !ops[k].Updates(tables[k], h)
    requires forall k :: i <= k < j ==> ops[k].End() <= now
    ensures h in tables[j] ==> tables[j][h] == tables[i][h]
    ensures Validate(tables[j], h, now)
            == if tables[i][h].revokedAt.None? && (tables[i][h].expiresAt.Some? ==> now < tables[i][h].expiresAt.value)
               then Some(tables[i][h]) else None
  {
    if i < j {
      var p := j - 1;
      assert tables[p + 1] == Next(tables[p], ops[p]);
      UntouchedKeyKept(tables, ops, i, p, h, now);
      assert !ops[p].Updates(tables[p], h);
      assert ops[p].End() <= now;
      if ops[p].Rotating? {
        assert ops[p].rotation.newHash !in tables[i];
      }
    }
  }

  // ---- Cleanup cannot be noticed ----

  /** What callers see: the outcome of a check, and the expiry a rotation reports. */
  datatype Answer = Checked(Option<Key>) | Rotated(Option<int>)

  function Answers(keys: Keys, op: Op): seq<Answer> {
    match op
    case Rotating(r) => [Rotated(Reported(keys, r))]
    case Interrupted(_, _) => []
    case Cleaning(_) => []
    case Checking(hash, now) => [Checked(Validate(keys, hash, now))]
  }

  function Observe(keys: Keys, ops: seq<Op>): seq<Answer>
    decreases |ops|
  {
    if ops == [] then [] else Answers(keys, ops[0]) + Observe(Next(keys, ops[0]), ops[1..])
  }

  function WithoutCleanup(ops: seq<Op>): seq<Op> {
    if ops == [] then []
    else (if ops[0].Cleaning? then [] else [ops[0]]) + WithoutCleanup(ops[1..])
  }

  /** Operations in order of time whose new hashes were never used, not even by a key deleted since. */
  ghost predicate Runnable(everUsed: set<string>, ops: seq<Op>, clock: int)
    decreases |ops|
  {
    ops != [] ==>
      && clock <= ops[0].Start()
      && (ops[0].Rotating? || ops[0].Interrupted? ==> ops[0].rotation.Ordered())
      && (ops[0].Rotating? ==> ops[0].rotation.newHash !in everUsed)
      && Runnable(everUsed + (if ops[0].Rotating? then {ops[0].rotation.newHash} else {}), ops[1..], ops[0].End())
  }

  /** `swept` lacks only keys of `full` that have expired by `clock`. */
  ghost predicate Swept(full: Keys, swept: Keys, clock: int) {
    && (forall h :: h in swept ==> h in full && full[h] == swept[h])
    && (forall h :: h in full && h !in swept ==> Expired(full[h], clock))
  }

  lemma SweptStep(full: Keys, swept: Keys, op: Op, clock: int)
    requires Swept(full, swept, clock) && clock <= op.Start() && !op.Cleaning?
    requires op.Rotating? || op.Interrupted? ==> op.rotation.Ordered()
    requires op.Rotating? ==> op.rotation.newHash !in full
    ensures Swept(Next(full, op), Next(swept, op), op.End())
    ensures Answers(full, op) == Answers(swept, op)
  {
  }

  lemma {:induction false} SweptRunsAgree(full: Keys, swept: Keys, ops: seq<Op>, clock: int)
    requires Swept(full, swept, clock) && Runnable(full.Keys, ops, clock)
    ensures Observe(swept, ops) == Observe(full, WithoutCleanup(ops))
    decreases |ops|
  {
    if ops == [] {
    } else if ops[0].Cleaning? {
      var less := DeleteExpired(swept, ops[0].now);
      assert Swept(full, less, ops[0].now);
      assert full.Keys + {} == full.Keys;
      SweptRunsAgree(full, less, ops[1..], ops[0].now);
      assert WithoutCleanup(ops) == WithoutCleanup(ops[1..]);
      assert Observe(swept, ops) == Observe(less, ops[1..]);
    } else {
      SweptStep(full, swept, ops[0], clock);
      var after := Next(full, ops[0]);
      assert after.Keys == full.Keys + (if ops[0].Rotating? then {ops[0].rotation.newHash} else {});
      SweptRunsAgree(after, Next(swept, ops[0]), ops[1..], ops[0].End());
      assert WithoutCleanup(ops)[1..] == WithoutCleanup(ops[1..]);
    }
  }

  /** Erasing every cleanup from a run, whenever and however often it ran, changes no answer. */
  lemma CleanupUnobservable(keys: Keys, ops: seq<Op>, clock: int)
    requires Runnable(keys.Keys, ops, clock)
    ensures Observe(keys, ops) == Observe(keys, WithoutCleanup(ops))
  {
    SweptRunsAgree(keys, keys, ops, clock);
  }
}
