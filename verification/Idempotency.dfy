/** The Idempotency-Key of the send endpoint. A request reserves its key with an insert that gives
    way to an existing row, sends, and then either records the message it sent or, if sending
    failed, frees the key again. Every SQL statement is one step, and the steps of any number of
    requests may interleave in any order. */
module Idempotency {

  const DAY := 86_400 * 1_000_000_000

  datatype Slot = Slot(user: string, key: string)

  /** A row of `send_idempotency_keys`; `sent` is empty until a send is recorded. */
  datatype Row = Row(hash: string, sent: string, created: int)

  type Table = map<Slot, Row>

  datatype Answer =
    | Go                      // the key is ours: send
    | Replay(sent: string)    // answer with the send recorded earlier
    | OtherRequest            // the key was used with a different request
    | StillProcessing
    | Gone                    // the row vanished between insert and select

  /** `DELETE ... WHERE created_at<now-24h` */
  function Expire(t: Table, now: int): Table {
    map s | s in t && t[s].created >= now - DAY :: t[s]
  }

  /** `INSERT OR IGNORE` */
  function InsertOrIgnore(t: Table, s: Slot, hash: string, now: int): Table {
    if s in t then t else t[s := Row(hash, "", now)]
  }

  /** What a request that did not get the key reads. */
  function Look(t: Table, s: Slot, hash: string): Answer {
    if s !in t then Gone
    else if t[s].hash != hash then OtherRequest
    else if t[s].sent == "" then StillProcessing
    else Replay(t[s].sent)
  }

  /** `DELETE ... WHERE user_id=? AND idempotency_key=? AND sent_message_id=''` */
  function Release(t: Table, s: Slot): Table {
    if s in t && t[s].sent == "" then t - {s} else t
  }

  /** `UPDATE ... SET sent_message_id=?` */
  function Store(t: Table, s: Slot, msg: string): Table {
    if s in t then t[s := t[s].(sent := msg)] else t
  }

  /** The handler's side of it, for one request that runs alone. */
  class KeyTable {
    var rows: Table

    constructor ()
      ensures rows == map[]
    {
      rows := map[];
    }

    method Reserve(s: Slot, hash: string, now: int) returns (a: Answer)
      modifies this
      ensures rows == InsertOrIgnore(Expire(old(rows), now), s, hash, now)
      ensures a == if s in Expire(old(rows), now) then Look(rows, s, hash) else Go
      ensures a != Gone
    {
      rows := Expire(rows, now);
      if s !in rows {
        rows := rows[s := Row(hash, "", now)];
        return Go;
      }
      var row := rows[s];
      if row.hash != hash { return OtherRequest; }
      if row.sent == "" { return StillProcessing; }
      return Replay(row.sent);
    }

    method Free(s: Slot)
      modifies this
      ensures rows == Release(old(rows), s)
    {
      if s in rows && rows[s].sent == "" {
        rows := rows - {s};
      }
    }

    method RecordSend(s: Slot, msg: string)
      modifies this
      ensures rows == Store(old(rows), s, msg)
    {
      if s in rows {
        rows := rows[s := rows[s].(sent := msg)];
      }
    }

    /** The handler from the key to the answer, undisturbed: a failed send leaves the key free, a
        successful one leaves its message under the key, and no other unexpired key is touched. */
    method SendMail(s: Slot, hash: string, now: int, sends: bool, msg: string) returns (a: Answer)
      modifies this
      ensures a == if s in Expire(old(rows), now) then Look(Expire(old(rows), now), s, hash) else Go
      ensures a == Go && !sends ==> rows == Expire(old(rows), now)
      ensures a == Go && sends ==> rows == Expire(old(rows), now)[s := Row(hash, msg, now)]
      ensures a != Go ==> rows == Expire(old(rows), now)
    {
      a := Reserve(s, hash, now);
      if a != Go { return; }
      if sends { RecordSend(s, msg); } else { Free(s); }
    }
  }

  // ---- Interleaved runs ----

  /** How far a request that reserved its key has come. */
  datatype Phase = Pending | Sent(msg: string) | Failed | Freed | Recorded(msg: string)

  datatype Attempt = Attempt(slot: Slot, hash: string, at: int, phase: Phase)

  datatype State = State(rows: Table, attempts: seq<Attempt>, clock: int)

  datatype Step =
    | Purge(now: int)
    | Reserve(slot: Slot, hash: string, now: int)
    | SendOk(i: nat, msg: string, now: int)
    | SendFail(i: nat, now: int)
    | FreeKey(i: nat, now: int)
    | RecordMsg(i: nat, now: int)

  /** A request takes its steps in order, however long it takes. */
  predicate Enabled(st: State, step: Step) {
    && st.clock <= step.now
    && match step
       case Purge(_) => true
       case Reserve(_, _, _) => true
       case SendOk(i, _, _) => i < |st.attempts| && st.attempts[i].phase == Pending
       case SendFail(i, _) => i < |st.attempts| && st.attempts[i].phase == Pending
       case FreeKey(i, _) => i < |st.attempts| && st.attempts[i].phase == Failed
       case RecordMsg(i, _) => i < |st.attempts| && st.attempts[i].phase.Sent?
  }

  /** It frees or records its key within a day of reserving it. */
  predicate InTime(st: State, step: Step) {
    match step
    case FreeKey(i, now) => i < |st.attempts| ==> now <= st.attempts[i].at + DAY
    case RecordMsg(i, now) => i < |st.attempts| ==> now <= st.attempts[i].at + DAY
    case _ => true
  }

  function Mark(attempts: seq<Attempt>, i: nat, phase: Phase): seq<Attempt> {
    if i < |attempts| then attempts[i := attempts[i].(phase := phase)] else attempts
  }

  /** The effect of a step. */
  function Apply(st: State, step: Step): State {
    match step
    case Purge(now) => State(Expire(st.rows, now), st.attempts, now)
    case Reserve(slot, hash, now) =>
      if slot in st.rows then st.(clock := now)
      else State(InsertOrIgnore(st.rows, slot, hash, now), st.attempts + [Attempt(slot, hash, now, Pending)], now)
    case SendOk(i, msg, now) => State(st.rows, Mark(st.attempts, i, Sent(msg)), now)
    case SendFail(i, now) => State(st.rows, Mark(st.attempts, i, Failed), now)
    case FreeKey(i, now) =>
      if i < |st.attempts| then State(Release(st.rows, st.attempts[i].slot), Mark(st.attempts, i, Freed), now) else st
    case RecordMsg(i, now) =>
      if i < |st.attempts| && st.attempts[i].phase.Sent? then
        var a := st.attempts[i];
        State(Store(st.rows, a.slot, a.phase.msg), Mark(st.attempts, i, Recorded(a.phase.msg)), now)
      else st
  }

  predicate Succeeded(a: Attempt) { a.phase.Sent? || a.phase.Recorded? }

  /** The row an attempt that still holds its key keeps in the table. */
  function RowOf(a: Attempt): Row {
    Row(a.hash, if a.phase.Recorded? then a.phase.msg else "", a.at)
  }

  ghost predicate Spaced(attempts: seq<Attempt>) {
    forall i, j :: 0 <= i < j < |attempts| && attempts[i].slot == attempts[j].slot && attempts[i].phase != Freed
      && attempts[j].phase != Freed
      ==> attempts[i].at + DAY < attempts[j].at
  }

  /** For a day after its reservation, an attempt that was not freed owns the row of its key. */
  ghost predicate Owns(st: State) {
    forall i :: 0 <= i < |st.attempts| && st.attempts[i].phase != Freed && st.clock <= st.attempts[i].at + DAY
      ==> st.attempts[i].slot in st.rows && st.rows[st.attempts[i].slot] == RowOf(st.attempts[i])
  }

  predicate OwnedBy(s: Slot, r: Row, a: Attempt) {
    a.slot == s && a.phase != Freed && r == RowOf(a)
  }

  ghost predicate HasOwner(s: Slot, r: Row, attempts: seq<Attempt>) {
    exists i :: 0 <= i < |attempts| && OwnedBy(s, r, attempts[i])
  }

  ghost predicate AllOwned(rows: Table, attempts: seq<Attempt>) {
    forall s :: s in rows ==> HasOwner(s, rows[s], attempts)
  }

  ghost predicate Inv(st: State) {
    && Spaced(st.attempts)
    && Owns(st)
    && AllOwned(st.rows, st.attempts)
    && (forall i :: 0 <= i < |st.attempts| ==> st.attempts[i].at <= st.clock)
  }

  lemma SpacedReplace(attempts: seq<Attempt>, i: nat, phase: Phase)
    requires Spaced(attempts) && i < |attempts| && attempts[i].phase != Freed
    ensures Spaced(Mark(attempts, i, phase))
  {
  }

  lemma SpacedAppend(attempts: seq<Attempt>, a: Attempt)
    requires Spaced(attempts)
    requires forall i :: 0 <= i < |attempts| && attempts[i].slot == a.slot && attempts[i].phase != Freed ==>
               attempts[i].at + DAY < a.at
    ensures Spaced(attempts + [a])
  {
  }

  /** A row keeps its owner when the owner's attempt still stands for the same row. */
  lemma OwnerMarked(s: Slot, r: Row, attempts: seq<Attempt>, i: nat, phase: Phase)
    requires HasOwner(s, r, attempts) && i < |attempts|
    requires attempts[i].slot != s || OwnedBy(s, r, attempts[i].(phase := phase))
    ensures HasOwner(s, r, Mark(attempts, i, phase))
  {
    var j :| 0 <= j < |attempts| && OwnedBy(s, r, attempts[j]);
    assert OwnedBy(s, r, Mark(attempts, i, phase)[j]);
  }

  lemma OwnerAppended(s: Slot, r: Row, attempts: seq<Attempt>, a: Attempt)
    requires HasOwner(s, r, attempts) || OwnedBy(s, r, a)
    ensures HasOwner(s, r, attempts + [a])
  {
    if OwnedBy(s, r, a) {
      assert OwnedBy(s, r, (attempts + [a])[|attempts|]);
    } else {
      var j :| 0 <= j < |attempts| && OwnedBy(s, r, attempts[j]);
      assert OwnedBy(s, r, (attempts + [a])[j]);
    }
  }

  lemma PurgeKeeps(st: State, now: int)
    requires Inv(st) && st.clock <= now
    ensures Inv(Apply(st, Purge(now)))
  {
  }

  lemma ReserveKeeps(st: State, slot: Slot, hash: string, now: int)
    requires Inv(st) && st.clock <= now
    ensures Inv(Apply(st, Reserve(slot, hash, now)))
  {
    if slot !in st.rows {
      var a := Attempt(slot, hash, now, Pending);
      var rows := st.rows[slot := Row(hash, "", now)];
      SpacedAppend(st.attempts, a);
      RowsOwned(st, slot, a, rows);
      OwnsAppended(st, a, rows);
    }
  }

  lemma RowsOwned(st: State, slot: Slot, a: Attempt, rows: Table)
    requires AllOwned(st.rows, st.attempts) && rows == st.rows[slot := RowOf(a)] && a.slot == slot && a.phase == Pending
    ensures AllOwned(rows, st.attempts + [a])
  {
    forall s | s in rows ensures HasOwner(s, rows[s], st.attempts + [a]) {
      OwnerAppended(s, rows[s], st.attempts, a);
    }
  }

  lemma OwnsAppended(st: State, a: Attempt, rows: Table)
    requires Owns(st) && st.clock <= a.at && a.slot !in st.rows && rows == st.rows[a.slot := RowOf(a)]
    ensures Owns(State(rows, st.attempts + [a], a.at))
  {
  }

  lemma StillOwned(s: Slot, r: Row, attempts: seq<Attempt>, i: nat, phase: Phase)
    requires HasOwner(s, r, attempts) && i < |attempts| && attempts[i].phase == Pending
    requires phase.Sent? || phase == Failed
    ensures HasOwner(s, r, Mark(attempts, i, phase))
  {
    var j :| 0 <= j < |attempts| && OwnedBy(s, r, attempts[j]);
    assert OwnedBy(s, r, Mark(attempts, i, phase)[j]);
  }

  lemma MarkKeeps(st: State, i: nat, phase: Phase, now: int)
    requires Inv(st) && st.clock <= now && i < |st.attempts| && st.attempts[i].phase == Pending
    requires phase.Sent? || phase == Failed
    ensures Inv(State(st.rows, Mark(st.attempts, i, phase), now))
  {
    SpacedReplace(st.attempts, i, phase);
    forall s | s in st.rows ensures HasOwner(s, st.rows[s], Mark(st.attempts, i, phase)) {
      StillOwned(s, st.rows[s], st.attempts, i, phase);
    }
  }

  /** In time, an attempt that was not freed is alone with its key. */
  lemma AloneInTime(st: State, i: nat, now: int)
    requires Inv(st) && st.clock <= now && i < |st.attempts| && st.attempts[i].phase != Freed
    requires now <= st.attempts[i].at + DAY
    ensures st.attempts[i].slot in st.rows && st.rows[st.attempts[i].slot] == RowOf(st.attempts[i])
    ensures forall j :: 0 <= j < |st.attempts| && j != i && st.attempts[j].slot == st.attempts[i].slot
              && st.attempts[j].phase != Freed
              ==> st.attempts[j].at + DAY < st.attempts[i].at
  {
  }

  /** Attempt `i`, alone with its key, changes its phase, and its key's row changes with it. */
  lemma OwnRowChanges(st: State, i: nat, phase: Phase, rows: Table, now: int)
    requires Inv(st) && st.clock <= now && i < |st.attempts| && st.attempts[i].phase != Freed
    requires now <= st.attempts[i].at + DAY
    requires var a := st.attempts[i].(phase := phase);
             if phase == Freed then rows == st.rows - {a.slot} else rows == st.rows[a.slot := RowOf(a)]
    ensures Inv(State(rows, Mark(st.attempts, i, phase), now))
  {
    AloneInTime(st, i, now);
    SpacedReplace(st.attempts, i, phase);
    var after := Mark(st.attempts, i, phase);
    forall s | s in rows ensures HasOwner(s, rows[s], after) {
      if s == st.attempts[i].slot {
        assert OwnedBy(s, rows[s], after[i]);
      } else {
        OwnerMarked(s, rows[s], st.attempts, i, phase);
      }
    }
  }

  lemma StepKeeps(st: State, step: Step)
    requires Inv(st) && Enabled(st, step) && InTime(st, step)
    ensures Inv(Apply(st, step))
  {
    match step
    case Purge(now) => PurgeKeeps(st, now);
    case Reserve(slot, hash, now) => ReserveKeeps(st, slot, hash, now);
    case SendOk(i, msg, now) => MarkKeeps(st, i, Sent(msg), now);
    case SendFail(i, now) => MarkKeeps(st, i, Failed, now);
    case FreeKey(i, now) =>
      AloneInTime(st, i, now);
      OwnRowChanges(st, i, Freed, st.rows - {st.attempts[i].slot}, now);
    case RecordMsg(i, now) =>
      AloneInTime(st, i, now);
      var a := st.attempts[i];
      OwnRowChanges(st, i, Recorded(a.phase.msg), st.rows[a.slot := Row(a.hash, a.phase.msg, a.at)], now);
  }

  function Run(start: int, steps: seq<Step>): State {
    if steps == [] then State(map[], [], start) else Apply(Run(start, steps[..|steps| - 1]), steps[|steps| - 1])
  }

  predicate IsRun(start: int, steps: seq<Step>) {
    steps == [] || (IsRun(start, steps[..|steps| - 1]) && Enabled(Run(start, steps[..|steps| - 1]), steps[|steps| - 1]))
  }

  predicate IsTimelyRun(start: int, steps: seq<Step>) {
    steps == []
    || (var st := Run(start, steps[..|steps| - 1]);
        IsTimelyRun(start, steps[..|steps| - 1]) && Enabled(st, steps[|steps| - 1]) && InTime(st, steps[|steps| - 1]))
  }

  lemma {:induction false} RunKeeps(start: int, steps: seq<Step>)
    requires IsTimelyRun(start, steps)
    ensures Inv(Run(start, steps))
  {
    if steps != [] {
      RunKeeps(start, steps[..|steps| - 1]);
      StepKeeps(Run(start, steps[..|steps| - 1]), steps[|steps| - 1]);
    }
  }

  /** At most one send a day: two successful sends with one user and key were reserved more than
      24 hours apart. */
  lemma SendsADayApart(start: int, steps: seq<Step>, i: nat, j: nat)
    requires IsTimelyRun(start, steps)
    requires var a := Run(start, steps).attempts;
             i < j < |a| && a[i].slot == a[j].slot && Succeeded(a[i]) && Succeeded(a[j])
    ensures var a := Run(start, steps).attempts; a[j].at - a[i].at > DAY
  {
    RunKeeps(start, steps);
  }

  predicate OwnsSlot(a: Attempt, slot: Slot) { a.slot == slot && a.phase != Freed }

  /** A failed attempt frees its own reservation and nothing else. */
  lemma FreesOnlyItsOwn(start: int, steps: seq<Step>, i: nat, now: int)
    requires IsTimelyRun(start, steps)
    requires Enabled(Run(start, steps), FreeKey(i, now)) && InTime(Run(start, steps), FreeKey(i, now))
    ensures var st := Run(start, steps);
            var a := st.attempts[i];
            && a.slot in st.rows && st.rows[a.slot] == Row(a.hash, "", a.at)
            && Apply(st, FreeKey(i, now)).rows == st.rows - {a.slot}
            && (forall j :: 0 <= j < |st.attempts| && j != i && OwnsSlot(st.attempts[j], a.slot) ==>
                  st.attempts[j].at + DAY < now)
  {
    RunKeeps(start, steps);
    AloneInTime(Run(start, steps), i, now);
  }

  /** A replay is the answer only to the very same request, and names a send recorded for it. */
  lemma ReplayIsOfTheSameRequest(start: int, steps: seq<Step>, slot: Slot, hash: string, sent: string)
    requires IsTimelyRun(start, steps) && Look(Run(start, steps).rows, slot, hash) == Replay(sent)
    ensures var st := Run(start, steps);
            exists i :: 0 <= i < |st.attempts|
                        && st.attempts[i] == Attempt(slot, hash, st.rows[slot].created, Recorded(sent))
  {
    RunKeeps(start, steps);
    var st := Run(start, steps);
    var i :| 0 <= i < |st.attempts| && OwnedBy(slot, st.rows[slot], st.attempts[i]);
    assert st.attempts[i] == Attempt(slot, hash, st.rows[slot].created, Recorded(sent));
  }

  /** Within a day of a recorded send, the same request is answered with that send and a different
      request under the same key is refused; neither can reserve the key. */
  lemma RecordedSendAnswers(start: int, steps: seq<Step>, i: nat, hash: string)
    requires IsTimelyRun(start, steps)
    requires var st := Run(start, steps);
             && i < |st.attempts| && st.clock <= st.attempts[i].at + DAY
             && st.attempts[i].phase.Recorded? && st.attempts[i].phase.msg != ""
    ensures var st := Run(start, steps);
            var a := st.attempts[i];
            && Look(st.rows, a.slot, hash) == (if hash == a.hash then Replay(a.phase.msg) else OtherRequest)
            && Apply(st, Reserve(a.slot, hash, st.clock)).attempts == st.attempts
  {
    RunKeeps(start, steps);
  }

  // ---- Runs in which requests take any time ----

  /** The attempt that reserved a key last, -1 if there is none. */
  function LastFor(attempts: seq<Attempt>, s: Slot): (j: int)
    ensures -1 <= j < |attempts|
    ensures j >= 0 ==> attempts[j].slot == s
    ensures forall k :: j < k < |attempts| ==> attempts[k].slot != s
  {
    if attempts == [] then -1
    else if attempts[|attempts| - 1].slot == s then |attempts| - 1
    else LastFor(attempts[..|attempts| - 1], s)
  }

  lemma LastForIs(attempts: seq<Attempt>, s: Slot, j: nat)
    requires j < |attempts| && attempts[j].slot == s && forall k :: j < k < |attempts| ==> attempts[k].slot != s
    ensures LastFor(attempts, s) == j
  {
  }

  predicate SameSlots(a: seq<Attempt>, b: seq<Attempt>) {
    |a| == |b| && forall i :: 0 <= i < |a| ==> a[i].slot == b[i].slot && a[i].hash == b[i].hash && a[i].at == b[i].at
  }

  lemma SameLast(a: seq<Attempt>, b: seq<Attempt>, s: Slot)
    requires SameSlots(a, b)
    ensures LastFor(a, s) == LastFor(b, s)
  {
    if LastFor(a, s) >= 0 { LastForIs(b, s, LastFor(a, s)); }
  }

  lemma OneAttemptMore(attempts: seq<Attempt>, a: Attempt, s: Slot)
    ensures LastFor(attempts + [a], s) == if a.slot == s then |attempts| else LastFor(attempts, s)
  {
    assert (attempts + [a])[..|attempts|] == attempts;
  }

  /** The row a key has was inserted by the attempt that reserved the key last, and what is recorded
      in it was recorded by some attempt of the key. */
  ghost predicate RowFits(st: State, s: Slot) {
    s in st.rows ==>
      var j := LastFor(st.attempts, s);
      && j >= 0 && st.rows[s].hash == st.attempts[j].hash && st.rows[s].created == st.attempts[j].at
      && (st.rows[s].sent != "" ==> IsRecorded(st.attempts, s, st.rows[s].sent))
  }

  predicate RecordedUnder(a: Attempt, s: Slot, msg: string) { a.slot == s && a.phase == Recorded(msg) }

  ghost predicate IsRecorded(attempts: seq<Attempt>, s: Slot, msg: string) {
    exists i :: 0 <= i < |attempts| && RecordedUnder(attempts[i], s, msg)
  }

  ghost predicate RowsFit(st: State) {
    forall s: Slot :: RowFits(st, s)
  }

  lemma RecordedStays(st: State, st': State, s: Slot)
    requires RowFits(st, s) && s in st.rows && s in st'.rows && st'.rows[s] == st.rows[s]
    requires |st.attempts| <= |st'.attempts|
    requires forall i :: 0 <= i < |st.attempts| && st.attempts[i].phase.Recorded? ==> st'.attempts[i] == st.attempts[i]
    requires LastFor(st'.attempts, s) == LastFor(st.attempts, s)
    requires forall i :: 0 <= i < |st.attempts| ==> st'.attempts[i].hash == st.attempts[i].hash
    requires forall i :: 0 <= i < |st.attempts| ==> st'.attempts[i].at == st.attempts[i].at
    ensures RowFits(st', s)
  {
    if st.rows[s].sent != "" {
      var i :| 0 <= i < |st.attempts| && RecordedUnder(st.attempts[i], s, st.rows[s].sent);
      assert RecordedUnder(st'.attempts[i], s, st'.rows[s].sent);
    }
  }

  lemma StepFits(st: State, step: Step, s: Slot)
    requires RowFits(st, s) && Enabled(st, step)
    ensures RowFits(Apply(st, step), s)
  {
    var st' := Apply(st, step);
    if step.Reserve? && step.slot !in st.rows {
      OneAttemptMore(st.attempts, Attempt(step.slot, step.hash, step.now, Pending), s);
      if step.slot != s && s in st.rows { RecordedStays(st, st', s); }
    } else {
      SameLast(st.attempts, st'.attempts, s);
      if step.RecordMsg? && st.attempts[step.i].slot == s {
        RecordFits(st, step.i, step.now);
      } else if s in st'.rows {
        RecordedStays(st, st', s);
      }
    }
  }

  lemma RecordFits(st: State, i: nat, now: int)
    requires i < |st.attempts| && st.attempts[i].phase.Sent? && RowFits(st, st.attempts[i].slot)
    ensures RowFits(Apply(st, RecordMsg(i, now)), st.attempts[i].slot)
  {
    var st', s := Apply(st, RecordMsg(i, now)), st.attempts[i].slot;
    SameLast(st.attempts, st'.attempts, s);
    if s in st.rows { assert RecordedUnder(st'.attempts[i], s, st'.rows[s].sent); }
  }

  lemma {:induction false} RunFits(start: int, steps: seq<Step>)
    requires IsRun(start, steps)
    ensures RowsFit(Run(start, steps))
  {
    if steps != [] {
      RunFits(start, steps[..|steps| - 1]);
      var st := Run(start, steps[..|steps| - 1]);
      forall s: Slot ensures RowFits(Run(start, steps), s) {
        assert RowFits(st, s);
        StepFits(st, steps[|steps| - 1], s);
      }
    }
  }

  /** The row that the key of attempt `i` has is the one that attempt `i` inserted. */
  predicate HoldsRow(st: State, i: nat) {
    i < |st.attempts| && st.attempts[i].slot in st.rows && LastFor(st.attempts, st.attempts[i].slot) == i
  }

  /** The step deletes the row of `s` that was created at `at`: a purge more than a day later, or a
      failed attempt of the key that finds the row unrecorded. */
  predicate TakesRow(st: State, step: Step, s: Slot, at: int) {
    match step
    case Purge(now) => now > at + DAY
    case FreeKey(i, _) => i < |st.attempts| && st.attempts[i].slot == s && s in st.rows && st.rows[s].sent == ""
    case _ => false
  }

  lemma StepHolds(st: State, step: Step, i: nat)
    requires RowsFit(st) && Enabled(st, step) && i < |st.attempts|
    ensures i < |Apply(st, step).attempts| && Apply(st, step).attempts[i].slot == st.attempts[i].slot
    ensures Apply(st, step).attempts[i].at == st.attempts[i].at
    ensures HoldsRow(Apply(st, step), i)
            <==> HoldsRow(st, i) && !TakesRow(st, step, st.attempts[i].slot, st.attempts[i].at)
  {
    var st', s := Apply(st, step), st.attempts[i].slot;
    assert RowFits(st, s);
    if step.Reserve? && step.slot !in st.rows {
      OneAttemptMore(st.attempts, Attempt(step.slot, step.hash, step.now, Pending), s);
    } else {
      SameLast(st.attempts, st'.attempts, s);
    }
  }

  /** Step `k` is the reservation of attempt `i`. */
  predicate Reserves(start: int, steps: seq<Step>, k: nat, i: nat) {
    && k < |steps| && steps[k].Reserve? && i == |Run(start, steps[..k]).attempts|
    && steps[k].slot !in Run(start, steps[..k]).rows
  }

  lemma {:induction false} PrefixIsRun(start: int, steps: seq<Step>, m: nat)
    requires IsRun(start, steps) && m <= |steps|
    ensures IsRun(start, steps[..m])
    decreases |steps|
  {
    if m < |steps| {
      var front := steps[..|steps| - 1];
      PrefixIsRun(start, front, m);
      assert front[..m] == steps[..m];
    } else {
      assert steps[..m] == steps;
    }
  }

  lemma RunFront(start: int, steps: seq<Step>, m: nat)
    requires IsRun(start, steps) && m < |steps|
    ensures IsRun(start, steps[..m]) && Enabled(Run(start, steps[..m]), steps[m])
    ensures Run(start, steps[..m + 1]) == Apply(Run(start, steps[..m]), steps[m])
  {
    PrefixIsRun(start, steps, m + 1);
    assert steps[..m + 1][..m] == steps[..m] && steps[..m + 1][m] == steps[m];
  }

  /** Step `m` takes the row that step `k` reserved. */
  predicate TakesAt(start: int, steps: seq<Step>, k: nat, m: nat)
    requires k < |steps| && m < |steps|
  {
    steps[k].Reserve? && TakesRow(Run(start, steps[..m]), steps[m], steps[k].slot, steps[k].now)
  }

  predicate Untaken(start: int, steps: seq<Step>, k: nat)
    requires k < |steps|
  {
    forall m :: k < m < |steps| ==> !TakesAt(start, steps, k, m)
  }

  lemma UntakenOneMore(start: int, steps: seq<Step>, k: nat)
    requires k < |steps| - 1 && steps[k].Reserve?
    ensures var n := |steps| - 1;
            Untaken(start, steps, k)
            <==>
            Untaken(start, steps[..n], k)
            && !TakesRow(Run(start, steps[..n]), steps[n], steps[k].slot, steps[k].now)
  {
    var n := |steps| - 1;
    var front := steps[..n];
    forall m | k < m < n ensures TakesAt(start, front, k, m) == TakesAt(start, steps, k, m) {
      assert front[..m] == steps[..m];
    }
    assert TakesAt(start, steps, k, n) == TakesRow(Run(start, steps[..n]), steps[n], steps[k].slot, steps[k].now);
  }

  /** An attempt still holds its key exactly when, since it reserved it, no purge came more than a
      day after the reservation and no failed attempt of the key, itself included, found the row
      unrecorded. Late requests are allowed. */
  lemma {:induction false} HoldsExactlyWhen(start: int, steps: seq<Step>, k: nat, i: nat)
    requires IsRun(start, steps) && Reserves(start, steps, k, i)
    ensures IsAttempt(Run(start, steps), i, steps[k].slot, steps[k].now)
    ensures HoldsRow(Run(start, steps), i) <==> Untaken(start, steps, k)
    decreases |steps|
  {
    var n := |steps| - 1;
    if n == k {
      FirstHolds(Run(start, steps[..n]), steps[k], i);
    } else {
      assert steps[..n][..k] == steps[..k];
      HoldsExactlyWhen(start, steps[..n], k, i);
      RunFits(start, steps[..n]);
      StepHolds(Run(start, steps[..n]), steps[n], i);
      UntakenOneMore(start, steps, k);
    }
  }

  predicate IsAttempt(st: State, i: nat, slot: Slot, at: int) {
    i < |st.attempts| && st.attempts[i].slot == slot && st.attempts[i].at == at
  }

  lemma FirstHolds(st: State, step: Step, i: nat)
    requires step.Reserve? && step.slot !in st.rows && i == |st.attempts|
    ensures HoldsRow(Apply(st, step), i) && IsAttempt(Apply(st, step), i, step.slot, step.now)
  {
    OneAttemptMore(st.attempts, Attempt(step.slot, step.hash, step.now, Pending), step.slot);
  }

  /** Some later attempt has reserved the same key. */
  ghost predicate ReReserved(st: State, i: nat)
    requires i < |st.attempts|
  {
    exists j :: i < j < |st.attempts| && st.attempts[j].slot == st.attempts[i].slot
  }

  lemma LastIsLater(st: State, i: nat)
    requires i < |st.attempts|
    ensures i <= LastFor(st.attempts, st.attempts[i].slot)
    ensures ReReserved(st, i) <==> i < LastFor(st.attempts, st.attempts[i].slot)
  {
  }

  /** The row of `s` is the one that step `l` inserted for attempt `j`, and it has stood since. */
  ghost predicate PutBy(start: int, steps: seq<Step>, l: nat, j: nat, s: Slot) {
    Reserves(start, steps, l, j) && steps[l].slot == s && Untaken(start, steps, l)
  }

  /** Every attempt was made by a reservation. */
  lemma {:induction false} AttemptReserved(start: int, steps: seq<Step>, j: nat) returns (l: nat)
    requires IsRun(start, steps) && j < |Run(start, steps).attempts|
    ensures Reserves(start, steps, l, j) && IsAttempt(Run(start, steps), j, steps[l].slot, steps[l].now)
  {
    var n := |steps| - 1;
    var st := Run(start, steps[..n]);
    if j < |st.attempts| {
      l := AttemptReserved(start, steps[..n], j);
      assert steps[..n][..l] == steps[..l];
    } else {
      l := n;
    }
  }

  /** A key has a row exactly when some reservation put it there and nothing took it since; then the
      row carries that request's hash and time. */
  lemma RowWasPut(start: int, steps: seq<Step>, s: Slot)
    requires IsRun(start, steps)
    ensures s in Run(start, steps).rows <==> exists l: nat, j: nat :: PutBy(start, steps, l, j, s)
    ensures forall l: nat, j: nat :: PutBy(start, steps, l, j, s) ==>
              var st := Run(start, steps);
              HoldsRow(st, j) && j == LastFor(st.attempts, s)
              && st.rows[s].hash == st.attempts[j].hash && st.rows[s].created == steps[l].now
  {
    var st := Run(start, steps);
    RunFits(start, steps);
    assert RowFits(st, s);
    forall l: nat, j: nat | PutBy(start, steps, l, j, s)
      ensures HoldsRow(st, j) && j == LastFor(st.attempts, s) && st.rows[s].created == steps[l].now
    {
      HoldsExactlyWhen(start, steps, l, j);
    }
    if s in st.rows {
      var j := LastFor(st.attempts, s);
      var l := AttemptReserved(start, steps, j);
      HoldsExactlyWhen(start, steps, l, j);
      assert PutBy(start, steps, l, j, s);
    }
  }

  /** A failed attempt deletes the row that another request put there exactly when its key was
      reserved again since and that reservation has a row without a recorded send; in time this
      cannot be. */
  lemma FreesAnotherExactlyWhen(start: int, steps: seq<Step>, i: nat, now: int)
    requires IsRun(start, steps) && Enabled(Run(start, steps), FreeKey(i, now))
    ensures var st := Run(start, steps);
            var s, after := st.attempts[i].slot, Apply(st, FreeKey(i, now));
            ((exists l: nat, j: nat :: PutBy(start, steps, l, j, s) && j != i) && s !in after.rows)
            <==> ReReserved(st, i) && s in st.rows && st.rows[s].sent == ""
    ensures IsTimelyRun(start, steps) && InTime(Run(start, steps), FreeKey(i, now)) ==> HoldsRow(Run(start, steps), i)
  {
    var st := Run(start, steps);
    RowWasPut(start, steps, st.attempts[i].slot);
    LastIsLater(st, i);
    if IsTimelyRun(start, steps) && InTime(st, FreeKey(i, now)) {
      RunFits(start, steps);
      InTimeHolds(start, steps, i, now);
    }
  }

  lemma {:induction false} InTimeHolds(start: int, steps: seq<Step>, i: nat, now: int)
    requires IsTimelyRun(start, steps) && RowsFit(Run(start, steps))
    requires var st := Run(start, steps);
             i < |st.attempts| && st.clock <= now <= st.attempts[i].at + DAY && st.attempts[i].phase != Freed
    ensures HoldsRow(Run(start, steps), i)
  {
    RunKeeps(start, steps);
    LastInTime(start, steps, i);
    AloneInTime(Run(start, steps), i, now);
  }

  /** In time nobody reserves the key again. */
  lemma {:induction false} LastInTime(start: int, steps: seq<Step>, i: nat)
    requires IsTimelyRun(start, steps)
    requires var st := Run(start, steps);
             i < |st.attempts| && st.clock <= st.attempts[i].at + DAY && st.attempts[i].phase != Freed
    ensures LastFor(Run(start, steps).attempts, Run(start, steps).attempts[i].slot) == i
  {
    if steps != [] {
      var n := |steps| - 1;
      var st := Run(start, steps[..n]);
      RunKeeps(start, steps[..n]);
      if i < |st.attempts| {
        LastInTime(start, steps[..n], i);
        StepKeepsLast(st, steps[n], i);
      } else {
        OneAttemptMore(st.attempts, Attempt(steps[n].slot, steps[n].hash, steps[n].now, Pending), steps[n].slot);
      }
    }
  }

  lemma StepKeepsLast(st: State, step: Step, i: nat)
    requires Inv(st) && Enabled(st, step) && i < |st.attempts| && LastFor(st.attempts, st.attempts[i].slot) == i
    requires st.clock <= st.attempts[i].at + DAY && st.attempts[i].phase != Freed
    ensures LastFor(Apply(st, step).attempts, st.attempts[i].slot) == i
  {
    var s := st.attempts[i].slot;
    AloneInTime(st, i, st.clock);
    if step.Reserve? && step.slot !in st.rows {
      OneAttemptMore(st.attempts, Attempt(step.slot, step.hash, step.now, Pending), s);
    } else {
      SameLast(st.attempts, Apply(st, step).attempts, s);
    }
  }

  /** Recording is not guarded by the reservation either. After attempt `i` recorded its send, that
      send answers exactly the requests that equal the one whose reservation has the row; so a
      different request is answered with it exactly when the key was reserved again since, by a
      different request, and that reservation still has its row. In time this cannot be. */
  lemma AnswersAnotherExactlyWhen(start: int, steps: seq<Step>, i: nat, now: int)
    requires IsRun(start, steps) && Enabled(Run(start, steps), RecordMsg(i, now))
    requires Run(start, steps).attempts[i].phase.msg != ""
    ensures var st := Run(start, steps);
            var a, after := st.attempts[i], Apply(st, RecordMsg(i, now));
            forall hash :: Look(after.rows, a.slot, hash) == Replay(a.phase.msg)
                           <==> a.slot in st.rows && hash == st.attempts[LastFor(st.attempts, a.slot)].hash
    ensures var st := Run(start, steps);
            var a, after := st.attempts[i], Apply(st, RecordMsg(i, now));
            (exists hash :: hash != a.hash && Look(after.rows, a.slot, hash) == Replay(a.phase.msg))
            <==> a.slot in st.rows && ReReserved(st, i) && st.attempts[LastFor(st.attempts, a.slot)].hash != a.hash
    ensures IsTimelyRun(start, steps) && InTime(Run(start, steps), RecordMsg(i, now)) ==> HoldsRow(Run(start, steps), i)
  {
    var st := Run(start, steps);
    var a, after := st.attempts[i], Apply(st, RecordMsg(i, now));
    RunFits(start, steps);
    assert RowFits(st, a.slot);
    LastIsLater(st, i);
    var j := LastFor(st.attempts, a.slot);
    if a.slot in st.rows && j > i && st.attempts[j].hash != a.hash {
      assert Look(after.rows, a.slot, st.attempts[j].hash) == Replay(a.phase.msg);
    }
    if IsTimelyRun(start, steps) && InTime(st, RecordMsg(i, now)) { InTimeHolds(start, steps, i, now); }
  }

  /** Over every run, late requests included, a replay names a send recorded under its user and key. */
  lemma ReplayIsOfTheSameKey(start: int, steps: seq<Step>, slot: Slot, hash: string, sent: string)
    requires IsRun(start, steps) && Look(Run(start, steps).rows, slot, hash) == Replay(sent)
    ensures var a := Run(start, steps).attempts;
            exists i :: 0 <= i < |a| && RecordedUnder(a[i], slot, sent)
  {
    RunFits(start, steps);
    assert RowFits(Run(start, steps), slot);
  }

  /** Two reservations of one key are a day apart unless, between them, a failed attempt of the key
      found the row unrecorded. */
  lemma CloseReservationsNeedAFree(start: int, steps: seq<Step>, k: nat, i: nat, l: nat, j: nat)
    requires IsRun(start, steps) && Reserves(start, steps, k, i) && Reserves(start, steps, l, j) && k < l
    requires steps[k].slot == steps[l].slot
    ensures steps[k].now + DAY < steps[l].now
            || exists m :: k < m < l && steps[m].FreeKey? && TakesAt(start, steps, k, m)
  {
    var front := steps[..l];
    RunFront(start, steps, l);
    assert front[..k] == steps[..k];
    HoldsExactlyWhen(start, front, k, i);
    var m :| k < m < l && TakesAt(start, front, k, m);
    assert front[..m] == steps[..m];
    assert TakesAt(start, steps, k, m);
    if steps[m].Purge? { ClockOnly(start, steps, m, l); }
  }

  lemma ClockOnly(start: int, steps: seq<Step>, m: nat, l: nat)
    requires IsRun(start, steps) && m < l < |steps|
    ensures steps[m].now <= steps[l].now
    decreases l - m
  {
    RunFront(start, steps, l);
    RunFront(start, steps, l - 1);
    if m < l - 1 { ClockOnly(start, steps, m, l - 1); }
  }

  /** Why the attempts must be timely: an attempt that fails after more than a day frees the key
      of a later one, and two sends are reserved one tick apart. */
  lemma LateFailureFreesAnother()
    ensures var s, t := Slot("u", "k"), DAY + 1;
            var steps := [Reserve(s, "h", 0), Purge(t), Reserve(s, "h", t), SendOk(1, "m1", t), SendFail(0, t),
                          FreeKey(0, t), Reserve(s, "h", t + 1), SendOk(2, "m2", t + 1)];
            IsRun(0, steps) && Run(0, steps).attempts == LateAttempts(s, t)
  {
    var s, t := Slot("u", "k"), DAY + 1;
    SecondSendOfALateKey(s, t);
    var a := [Reserve(s, "h", 0), Purge(t), Reserve(s, "h", t), SendOk(1, "m1", t)];
    Extend(0, a, SendFail(0, t));
    var b := a + [SendFail(0, t)];
    Extend(0, b, FreeKey(0, t));
    var c := b + [FreeKey(0, t)];
    assert Run(0, c).rows == map[];
    Extend(0, c, Reserve(s, "h", t + 1));
    var d := c + [Reserve(s, "h", t + 1)];
    Extend(0, d, SendOk(2, "m2", t + 1));
    assert d + [SendOk(2, "m2", t + 1)]
        == [Reserve(s, "h", 0), Purge(t), Reserve(s, "h", t), SendOk(1, "m1", t), SendFail(0, t), FreeKey(0, t),
            Reserve(s, "h", t + 1), SendOk(2, "m2", t + 1)];
  }

  /** The first attempt failed late; both others sent. */
  function LateAttempts(s: Slot, t: int): seq<Attempt> {
    [Attempt(s, "h", 0, Freed), Attempt(s, "h", t, Sent("m1")), Attempt(s, "h", t + 1, Sent("m2"))]
  }

  lemma SecondSendOfALateKey(s: Slot, t: int)
    requires t == DAY + 1
    ensures var a := [Reserve(s, "h", 0), Purge(t), Reserve(s, "h", t), SendOk(1, "m1", t)];
            IsRun(0, a) && Run(0, a) == State(map[s := Row("h", "", t)],
                                              [Attempt(s, "h", 0, Pending), Attempt(s, "h", t, Sent("m1"))], t)
  {
    Extend(0, [], Reserve(s, "h", 0));
    var a := [] + [Reserve(s, "h", 0)];
    Extend(0, a, Purge(t));
    var b := a + [Purge(t)];
    assert Run(0, b).rows == map[];
    Extend(0, b, Reserve(s, "h", t));
    var c := b + [Reserve(s, "h", t)];
    Extend(0, c, SendOk(1, "m1", t));
    assert c + [SendOk(1, "m1", t)] == [Reserve(s, "h", 0), Purge(t), Reserve(s, "h", t), SendOk(1, "m1", t)];
  }

  /** A late recording, in a run: the first of two different requests records its send after the
      second has reserved the key, and the second is answered with it. */
  lemma LateRecordAnswersAnother()
    ensures var s := Slot("u", "k");
            exists steps :: IsRun(0, steps) && |Run(0, steps).attempts| == 2
              && Run(0, steps).attempts[0] == Attempt(s, "h1", 0, Recorded("m1"))
              && Run(0, steps).attempts[1] == Attempt(s, "h2", DAY + 1, Pending)
              && Look(Run(0, steps).rows, s, "h2") == Replay("m1")
  {
    var s := Slot("u", "k");
    FirstRequestThenPurge();
    var t := DAY + 1;
    var c := [Reserve(s, "h1", 0), SendOk(0, "m1", 0), Purge(t)];
    Extend(0, c, Reserve(s, "h2", t));
    var d := c + [Reserve(s, "h2", t)];
    var both := [Attempt(s, "h1", 0, Sent("m1")), Attempt(s, "h2", t, Pending)];
    assert Run(0, d) == State(map[s := Row("h2", "", t)], both, t);
    Extend(0, d, RecordMsg(0, t));
    assert IsRun(0, d + [RecordMsg(0, t)]);
  }

  lemma FirstRequestThenPurge()
    ensures var s, t := Slot("u", "k"), DAY + 1;
            var c := [Reserve(s, "h1", 0), SendOk(0, "m1", 0), Purge(t)];
            IsRun(0, c) && Run(0, c) == State(map[], [Attempt(s, "h1", 0, Sent("m1"))], t)
  {
    var s := Slot("u", "k");
    Extend(0, [], Reserve(s, "h1", 0));
    var a := [] + [Reserve(s, "h1", 0)];
    Extend(0, a, SendOk(0, "m1", 0));
    var b := a + [SendOk(0, "m1", 0)];
    assert Run(0, b) == State(map[s := Row("h1", "", 0)], [Attempt(s, "h1", 0, Sent("m1"))], 0);
    Extend(0, b, Purge(DAY + 1));
    assert b + [Purge(DAY + 1)] == [Reserve(s, "h1", 0), SendOk(0, "m1", 0), Purge(DAY + 1)];
    assert Expire(map[s := Row("h1", "", 0)], DAY + 1) == map[];
  }

  lemma Extend(start: int, steps: seq<Step>, step: Step)
    requires IsRun(start, steps) && Enabled(Run(start, steps), step)
    ensures IsRun(start, steps + [step]) && Run(start, steps + [step]) == Apply(Run(start, steps), step)
  {
    assert (steps + [step])[..|steps|] == steps;
  }
}
