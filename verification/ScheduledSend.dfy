/** Scheduled sends: a worker claims a due row by compare-and-set, sends it and writes the outcome;
    the user may cancel a row that still reads as pending or failed. Every SQL statement and every
    send is one step. Any number of workers and cancel requests interleave, and a crash is a worker
    that takes no further step. */
module ScheduledSend {

  const NOTICE := 30 * 1_000_000_000

  datatype Status = Pending | Sending | SentOut | FailedSend | Cancelled

  /** A row of `scheduled_sends`; an empty draft id is no draft. */
  datatype Row = Row(status: Status, sendAt: int, draft: string)

  type Table = map<nat, Row>

  function SetStatus(t: Table, id: nat, s: Status): Table {
    if id in t then t[id := t[id].(status := s)] else t
  }

  predicate IsPending(t: Table, id: nat) { id in t && t[id].status == Pending }

  predicate Cancellable(t: Table, id: nat) { id in t && (t[id].status == Pending || t[id].status == FailedSend) }

  class Schedule {
    var rows: Table

    constructor ()
      ensures rows == map[]
    {
      rows := map[];
    }

    /** The conditional update that claims a row; the affected row count says whether it did. */
    method Claim(id: nat) returns (claimed: bool)
      modifies this
      ensures claimed == IsPending(old(rows), id)
      ensures rows == if claimed then SetStatus(old(rows), id, Sending) else old(rows)
    {
      if id in rows && rows[id].status == Pending {
        rows := rows[id := rows[id].(status := Sending)];
        return true;
      }
      return false;
    }

    /** One worker run over one item. `allowed` says that payload, mailbox and permissions are in
        order, `sends` that sending succeeds. */
    method Process(id: nat, draft: string, allowed: bool, sends: bool) returns (started: bool, draftDeleted: bool)
      modifies this
      ensures started == (IsPending(old(rows), id) && allowed)
      ensures draftDeleted == (started && sends && draft != "")
      ensures rows == (if !IsPending(old(rows), id) then old(rows)
                       else SetStatus(old(rows), id, if allowed && sends then SentOut else FailedSend))
    {
      started, draftDeleted := false, false;
      var claimed := Claim(id);
      if !claimed { return; }
      if !allowed {
        rows := SetStatus(rows, id, FailedSend);
        return;
      }
      started := true;
      if !sends {
        rows := SetStatus(rows, id, FailedSend);
        return;
      }
      draftDeleted := draft != "";
      rows := SetStatus(rows, id, SentOut);
    }

    method Cancel(id: nat) returns (ok: bool)
      modifies this
      ensures ok == Cancellable(old(rows), id)
      ensures rows == if ok then SetStatus(old(rows), id, Cancelled) else old(rows)
    {
      if id !in rows { return false; }
      var status := rows[id].status;
      if status != Pending && status != FailedSend { return false; }
      rows := rows[id := rows[id].(status := Cancelled)];
      return true;
    }
  }

  // ---- Interleaved runs ----

  /** A worker that has claimed a row: before the send, while sending, after it, done. */
  datatype Phase = Claimed | Started | Delivered | Refused | Done(delivered: bool)

  datatype Job = Job(id: nat, draft: string, phase: Phase)

  /** `picked` are the rows some worker has read as due, `cancelling` those a cancel request has
      read as cancellable; both reads may be stale by the time they are acted on. `starts` lists the
      rows for which a send was started, in order, and `deleted` the drafts deleted. */
  datatype State = State(rows: Table, picked: set<nat>, cancelling: set<nat>, jobs: seq<Job>, starts: seq<nat>,
    deleted: seq<string>, clock: int)

  datatype Step =
    | Schedule(id: nat, sendAt: int, draft: string, now: int)
    | Pick(id: nat, now: int)
    | Claim(id: nat, now: int)
    | Reject(j: nat, now: int)
    | Start(j: nat, now: int)
    | Finish(j: nat, ok: bool, now: int)
    | DeleteDraft(j: nat, now: int)
    | MarkFailed(j: nat, now: int)
    | MarkSent(j: nat, now: int)
    | CancelRead(id: nat, now: int)
    | CancelWrite(id: nat, now: int)

  predicate At(st: State, j: nat, phase: Phase) {
    j < |st.jobs| && st.jobs[j].phase == phase
  }

  predicate Enabled(st: State, step: Step) {
    && st.clock <= step.now
    && match step
       case Schedule(id, sendAt, _, now) => id !in st.rows && sendAt > now + NOTICE
       case Pick(id, now) => IsPending(st.rows, id) && st.rows[id].sendAt <= now
       case Claim(id, _) => id in st.picked && IsPending(st.rows, id)
       case Reject(j, _) => At(st, j, Claimed)
       case Start(j, _) => At(st, j, Claimed)
       case Finish(j, _, _) => At(st, j, Started)
       case DeleteDraft(j, _) => At(st, j, Delivered) && st.jobs[j].draft != ""
       case MarkFailed(j, _) => At(st, j, Refused)
       case MarkSent(j, _) => At(st, j, Delivered)
       case CancelRead(id, _) => Cancellable(st.rows, id)
       case CancelWrite(id, _) => id in st.cancelling
  }

  function Move(st: State, j: nat, phase: Phase): State {
    if j < |st.jobs| then st.(jobs := st.jobs[j := st.jobs[j].(phase := phase)]) else st
  }

  function JobId(st: State, j: nat): nat {
    if j < |st.jobs| then st.jobs[j].id else 0
  }

  function Apply(st: State, step: Step): State {
    var st1 := st.(clock := step.now);
    match step
    case Schedule(id, sendAt, draft, _) => st1.(rows := st.rows[id := Row(Pending, sendAt, draft)])
    case Pick(id, _) => st1.(picked := st.picked + {id})
    case Claim(id, _) =>
      if id in st.rows then
        st1.(rows := SetStatus(st.rows, id, Sending), jobs := st.jobs + [Job(id, st.rows[id].draft, Claimed)])
      else st1
    case Reject(j, _) => Move(st1, j, Refused)
    case Start(j, _) => Move(st1, j, Started).(starts := st.starts + [JobId(st, j)])
    case Finish(j, ok, _) => Move(st1, j, if ok then Delivered else Refused)
    case DeleteDraft(j, _) => if j < |st.jobs| then st1.(deleted := st.deleted + [st.jobs[j].draft]) else st1
    case MarkFailed(j, _) => Move(st1, j, Done(false)).(rows := SetStatus(st.rows, JobId(st, j), FailedSend))
    case MarkSent(j, _) => Move(st1, j, Done(true)).(rows := SetStatus(st.rows, JobId(st, j), SentOut))
    case CancelRead(id, _) => st1.(cancelling := st.cancelling + {id})
    case CancelWrite(id, _) => st1.(rows := SetStatus(st.rows, id, Cancelled))
  }

  function Begin(clock: int): State { State(map[], {}, {}, [], [], [], clock) }

  function Run(st: State, steps: seq<Step>): State {
    if steps == [] then st else Apply(Run(st, steps[..|steps| - 1]), steps[|steps| - 1])
  }

  predicate IsRun(st: State, steps: seq<Step>) {
    steps == [] || (IsRun(st, steps[..|steps| - 1]) && Enabled(Run(st, steps[..|steps| - 1]), steps[|steps| - 1]))
  }

  // ---- What every step keeps ----

  predicate NotPending(t: Table, id: nat) { id in t && t[id].status != Pending }

  /** A claimed row has exactly one job and is never pending again. */
  ghost predicate OneJobEach(st: State) {
    && (forall i, j :: 0 <= i < j < |st.jobs| ==> st.jobs[i].id != st.jobs[j].id)
    && (forall i :: 0 <= i < |st.jobs| ==> NotPending(st.rows, st.jobs[i].id))
  }

  /** Every started send has its job, past the start, and no row is started twice. */
  ghost predicate StartsHaveJobs(st: State) {
    && (forall a, b :: 0 <= a < b < |st.starts| ==> st.starts[a] != st.starts[b])
    && (forall i :: 0 <= i < |st.jobs| && st.jobs[i].phase == Claimed ==> st.jobs[i].id !in st.starts)
    && (forall id :: id in st.starts ==> exists i :: 0 <= i < |st.jobs| && st.jobs[i].id == id)
  }

  ghost predicate InTime(st: State) {
    && (forall id :: id in st.picked ==> id in st.rows && st.rows[id].sendAt <= st.clock)
    && (forall i :: 0 <= i < |st.jobs| ==> st.jobs[i].id in st.picked)
  }

  predicate DeliveredBy(st: State, draft: string, i: nat) {
    i < |st.jobs| && st.jobs[i].draft == draft && (st.jobs[i].phase == Delivered || st.jobs[i].phase == Done(true))
  }

  ghost predicate DraftsDelivered(st: State) {
    forall d :: d in st.deleted ==> exists i: nat :: DeliveredBy(st, d, i)
  }

  ghost predicate Inv(st: State) {
    OneJobEach(st) && StartsHaveJobs(st) && InTime(st) && DraftsDelivered(st)
  }

  /** No step writes `pending`, and jobs only move forward. */
  ghost predicate Progress(st: State, st': State) {
    && (forall id :: NotPending(st.rows, id) ==> NotPending(st'.rows, id))
    && |st.jobs| <= |st'.jobs|
    && (forall i :: 0 <= i < |st.jobs| ==> SameJob(st.jobs[i], st'.jobs[i]))
  }

  predicate SameJob(a: Job, b: Job) {
    && a.id == b.id && a.draft == b.draft
    && (b.phase == Claimed ==> a.phase == Claimed)
    && (a.phase == Delivered || a.phase == Done(true) ==> b.phase == Delivered || b.phase == Done(true))
  }

  lemma StepProgresses(st: State, step: Step)
    requires Enabled(st, step)
    ensures Progress(st, Apply(st, step))
  {
  }

  lemma StepKeepsOneJobEach(st: State, step: Step)
    requires OneJobEach(st) && Enabled(st, step)
    ensures OneJobEach(Apply(st, step))
  {
    StepProgresses(st, step);
  }

  lemma StepKeepsStarts(st: State, step: Step)
    requires OneJobEach(st) && StartsHaveJobs(st) && Enabled(st, step)
    ensures StartsHaveJobs(Apply(st, step))
  {
    StepProgresses(st, step);
    var st' := Apply(st, step);
    forall id | id in st'.starts ensures exists i :: 0 <= i < |st'.jobs| && st'.jobs[i].id == id {
      if id in st.starts {
        var i :| 0 <= i < |st.jobs| && st.jobs[i].id == id;
        assert SameJob(st.jobs[i], st'.jobs[i]);
      } else if step.Start? {
        assert st'.jobs[step.j].id == id;
      }
    }
  }

  lemma StepKeepsInTime(st: State, step: Step)
    requires InTime(st) && Enabled(st, step)
    ensures InTime(Apply(st, step))
  {
  }

  lemma StepKeepsDrafts(st: State, step: Step)
    requires DraftsDelivered(st) && Enabled(st, step)
    ensures DraftsDelivered(Apply(st, step))
  {
    StepProgresses(st, step);
    var st' := Apply(st, step);
    forall d | d in st'.deleted ensures exists i: nat :: DeliveredBy(st', d, i) {
      if d in st.deleted {
        var i: nat :| DeliveredBy(st, d, i);
        assert SameJob(st.jobs[i], st'.jobs[i]);
        assert DeliveredBy(st', d, i);
      } else if step.DeleteDraft? {
        assert DeliveredBy(st', d, step.j);
      }
    }
  }

  lemma {:induction false} RunKeeps(clock: int, steps: seq<Step>)
    requires IsRun(Begin(clock), steps)
    ensures Inv(Run(Begin(clock), steps))
  {
    if steps != [] {
      var front, last := steps[..|steps| - 1], steps[|steps| - 1];
      var st := Run(Begin(clock), front);
      RunKeeps(clock, front);
      StepKeepsOneJobEach(st, last);
      StepKeepsStarts(st, last);
      StepKeepsInTime(st, last);
      StepKeepsDrafts(st, last);
    }
  }

  /** At most once: however workers, cancel requests and crashes interleave, no row's send is
      started twice, and none before its time. */
  lemma StartsAtMostOnce(clock: int, steps: seq<Step>)
    requires IsRun(Begin(clock), steps)
    ensures var st := Run(Begin(clock), steps);
            && (forall a, b :: 0 <= a < b < |st.starts| ==> st.starts[a] != st.starts[b])
            && (forall id :: id in st.starts ==> NotPending(st.rows, id) && st.rows[id].sendAt <= st.clock)
  {
    RunKeeps(clock, steps);
    var st := Run(Begin(clock), steps);
    forall id | id in st.starts ensures NotPending(st.rows, id) && st.rows[id].sendAt <= st.clock {
      var i :| 0 <= i < |st.jobs| && st.jobs[i].id == id;
    }
  }

  /** A draft is deleted only after the message made from it was sent. */
  lemma DraftDeletedOnlyAfterSend(clock: int, steps: seq<Step>, draft: string)
    requires IsRun(Begin(clock), steps) && draft in Run(Begin(clock), steps).deleted
    ensures exists i: nat :: DeliveredBy(Run(Begin(clock), steps), draft, i)
  {
    RunKeeps(clock, steps);
  }

  // ---- What a status tells ----

  /** The step ends job `j`: its send went through, or it failed or was rejected. */
  predicate EndsJob(step: Step, j: nat, ok: bool) {
    match step
    case Finish(k, went, _) => k == j && went == ok
    case Reject(k, _) => k == j && !ok
    case _ => false
  }

  ghost predicate Ended(steps: seq<Step>, j: nat, ok: bool) {
    exists k :: 0 <= k < |steps| && EndsJob(steps[k], j, ok)
  }

  predicate EndedAs(phase: Phase, ok: bool) {
    phase == Done(ok) || (phase.Delivered? && ok) || (phase.Refused? && !ok)
  }

  /** The phase of every job is what its steps say, and no step speaks of a job that is not there. */
  ghost predicate PhasesTell(steps: seq<Step>, st: State) {
    forall j: nat, ok :: Ended(steps, j, ok) <==> j < |st.jobs| && EndedAs(st.jobs[j].phase, ok)
  }

  ghost predicate DoneFor(st: State, id: nat, ok: bool) {
    exists j :: 0 <= j < |st.jobs| && st.jobs[j].id == id && st.jobs[j].phase == Done(ok)
  }

  ghost predicate StatusesTell(st: State) {
    forall id :: id in st.rows ==>
      && (st.rows[id].status == SentOut ==> DoneFor(st, id, true))
      && (st.rows[id].status == FailedSend ==> DoneFor(st, id, false))
  }

  lemma EndedOnceMore(steps: seq<Step>, j: nat, ok: bool)
    requires steps != []
    ensures Ended(steps, j, ok) <==> Ended(steps[..|steps| - 1], j, ok) || EndsJob(steps[|steps| - 1], j, ok)
  {
    var n := |steps| - 1;
    if k :| 0 <= k < n && EndsJob(steps[..n][k], j, ok) { assert EndsJob(steps[k], j, ok); }
    if k :| 0 <= k < n && EndsJob(steps[k], j, ok) { assert EndsJob(steps[..n][k], j, ok); }
  }

  lemma StepEnds(st: State, step: Step, j: nat, ok: bool)
    requires Enabled(st, step)
    ensures var t := Apply(st, step);
            (j < |t.jobs| && EndedAs(t.jobs[j].phase, ok))
            <==> (j < |st.jobs| && EndedAs(st.jobs[j].phase, ok)) || EndsJob(step, j, ok)
  {
  }

  lemma StepStatuses(st: State, step: Step)
    requires Enabled(st, step) && StatusesTell(st)
    ensures StatusesTell(Apply(st, step))
  {
    var t := Apply(st, step);
    forall id, ok | DoneFor(st, id, ok) ensures DoneFor(t, id, ok) {
      var j :| 0 <= j < |st.jobs| && st.jobs[j].id == id && st.jobs[j].phase == Done(ok);
      assert t.jobs[j] == st.jobs[j];
    }
    if step.MarkSent? || step.MarkFailed? {
      assert t.jobs[step.j].id == JobId(st, step.j) && t.jobs[step.j].phase == Done(step.MarkSent?);
    }
  }

  lemma {:induction false} RunTells(clock: int, steps: seq<Step>)
    requires IsRun(Begin(clock), steps)
    ensures PhasesTell(steps, Run(Begin(clock), steps)) && StatusesTell(Run(Begin(clock), steps))
  {
    if steps != [] {
      var n := |steps| - 1;
      var st := Run(Begin(clock), steps[..n]);
      RunTells(clock, steps[..n]);
      StepStatuses(st, steps[n]);
      forall j: nat, ok
        ensures Ended(steps, j, ok) <==>
                j < |Apply(st, steps[n]).jobs| && EndedAs(Apply(st, steps[n]).jobs[j].phase, ok)
      {
        EndedOnceMore(steps, j, ok);
        StepEnds(st, steps[n], j, ok);
      }
    }
  }

  /** Some send of this row went through, or some attempt to send it failed or was rejected. */
  ghost predicate CameTo(steps: seq<Step>, st: State, id: nat, ok: bool) {
    exists j: nat :: j < |st.jobs| && st.jobs[j].id == id && Ended(steps, j, ok)
  }

  /** Over every interleaving: a row that reads as sent was sent, a row that reads as failed was not,
      and a deleted draft belongs to a send that went through. No row comes to both. */
  lemma StatusIsOutcome(clock: int, steps: seq<Step>, id: nat)
    requires IsRun(Begin(clock), steps) && id in Run(Begin(clock), steps).rows
    ensures var st := Run(Begin(clock), steps);
            && (st.rows[id].status == SentOut ==> CameTo(steps, st, id, true))
            && (st.rows[id].status == FailedSend ==> CameTo(steps, st, id, false))
            && !(CameTo(steps, st, id, true) && CameTo(steps, st, id, false))
            && forall d :: d in st.deleted ==>
                 exists j: nat :: j < |st.jobs| && st.jobs[j].draft == d && Ended(steps, j, true)
  {
    RunKeeps(clock, steps);
    RunTells(clock, steps);
    var st := Run(Begin(clock), steps);
    forall ok | DoneFor(st, id, ok) ensures CameTo(steps, st, id, ok) {
      var j: nat :| 0 <= j < |st.jobs| && st.jobs[j].id == id && st.jobs[j].phase == Done(ok);
      assert Ended(steps, j, ok);
    }
    forall d | d in st.deleted
      ensures exists j: nat :: j < |st.jobs| && st.jobs[j].draft == d && Ended(steps, j, true)
    {
      var j: nat :| DeliveredBy(st, d, j);
      assert EndedAs(st.jobs[j].phase, true);
    }
    forall i: nat, j: nat | i < |st.jobs| && j < |st.jobs| && st.jobs[i].id == st.jobs[j].id ensures i == j {
    }
  }

  // ---- What a cancellation achieves ----

  ghost predicate HasJob(st: State, id: nat) {
    exists i :: 0 <= i < |st.jobs| && st.jobs[i].id == id
  }

  /** A row that is not pending and has no job stays without one. */
  lemma {:induction false} NeverClaimed(st: State, more: seq<Step>, id: nat)
    requires IsRun(st, more) && NotPending(st.rows, id) && !HasJob(st, id)
    ensures NotPending(Run(st, more).rows, id) && !HasJob(Run(st, more), id)
  {
    if more != [] {
      var n := |more| - 1;
      NeverClaimed(st, more[..n], id);
      var st1 := Run(st, more[..n]);
      var st2 := Apply(st1, more[n]);
      StepProgresses(st1, more[n]);
      forall i | 0 <= i < |st2.jobs| ensures st2.jobs[i].id != id {
        if i < |st1.jobs| {
          assert SameJob(st1.jobs[i], st2.jobs[i]) && st1.jobs[i].id != id;
        } else {
          assert more[n].Claim? && IsPending(st1.rows, more[n].id);
        }
      }
    }
  }

  lemma {:induction false} Concat(st: State, a: seq<Step>, b: seq<Step>)
    requires IsRun(st, a) && IsRun(Run(st, a), b)
    ensures IsRun(st, a + b) && Run(st, a + b) == Run(Run(st, a), b)
    decreases |b|
  {
    if b == [] {
      assert a + b == a;
    } else {
      var n := |b| - 1;
      Concat(st, a, b[..n]);
      assert (a + b)[..|a + b| - 1] == a + b[..n];
    }
  }

  /** A row cancelled before any worker claimed it is never sent. */
  lemma CancelledBeforeClaimIsNeverSent(clock: int, steps: seq<Step>, more: seq<Step>, id: nat)
    requires IsRun(Begin(clock), steps) && IsRun(Run(Begin(clock), steps), more)
    requires var st := Run(Begin(clock), steps); id in st.rows && st.rows[id].status == Cancelled && !HasJob(st, id)
    ensures id !in Run(Run(Begin(clock), steps), more).starts
  {
    NeverClaimed(Run(Begin(clock), steps), more, id);
    Concat(Begin(clock), steps, more);
    RunKeeps(clock, steps + more);
  }

  /** The send of row `id` has begun, or a worker that claimed the row is about to begin it. */
  ghost predicate SendOpen(st: State, id: nat) {
    id in st.starts || exists j :: 0 <= j < |st.jobs| && st.jobs[j].id == id && st.jobs[j].phase == Claimed
  }

  ghost predicate CanStillBeSent(st: State, id: nat) {
    exists more :: IsRun(st, more) && id in Run(st, more).starts
  }

  /** The status is read before it is written, so a successful cancellation does not by itself mean
      that nothing is sent. Once the cancellation is written the message has been or can still be
      sent exactly when its send has begun or a worker that claimed the row has yet to begin it. */
  lemma CancelStopsExactlyWhenNotOpen(clock: int, steps: seq<Step>, id: nat)
    requires IsRun(Begin(clock), steps)
    requires var st := Run(Begin(clock), steps); id in st.rows && st.rows[id].status == Cancelled
    ensures CanStillBeSent(Run(Begin(clock), steps), id) <==> SendOpen(Run(Begin(clock), steps), id)
  {
    RunKeeps(clock, steps);
    var st := Run(Begin(clock), steps);
    if SendOpen(st, id) {
      OpenCanBeSent(st, id);
    } else {
      forall more | IsRun(st, more) ensures id !in Run(st, more).starts {
        NotOpenStays(st, more, id);
      }
    }
  }

  lemma OpenCanBeSent(st: State, id: nat)
    requires SendOpen(st, id)
    ensures CanStillBeSent(st, id)
  {
    if id in st.starts {
      assert IsRun(st, []) && Run(st, []) == st;
    } else {
      var j :| 0 <= j < |st.jobs| && st.jobs[j].id == id && st.jobs[j].phase == Claimed;
      Extend(st, [], Start(j, st.clock));
      assert IsRun(st, [] + [Start(j, st.clock)]) && id in Run(st, [] + [Start(j, st.clock)]).starts;
    }
  }

  lemma {:induction false} NotOpenStays(st: State, more: seq<Step>, id: nat)
    requires IsRun(st, more) && NotPending(st.rows, id) && !SendOpen(st, id)
    ensures NotPending(Run(st, more).rows, id) && !SendOpen(Run(st, more), id)
  {
    if more != [] {
      var n := |more| - 1;
      NotOpenStays(st, more[..n], id);
      NotOpenStep(Run(st, more[..n]), more[n], id);
    }
  }

  lemma NotOpenStep(st: State, step: Step, id: nat)
    requires Enabled(st, step) && NotPending(st.rows, id) && !SendOpen(st, id)
    ensures NotPending(Apply(st, step).rows, id) && !SendOpen(Apply(st, step), id)
  {
    StepProgresses(st, step);
    var st' := Apply(st, step);
    forall j | 0 <= j < |st'.jobs| && st'.jobs[j].id == id ensures st'.jobs[j].phase != Claimed {
      if j < |st.jobs| { assert SameJob(st.jobs[j], st'.jobs[j]); }
    }
  }

  /** The race: a cancellation that succeeds while its message has already been sent. */
  lemma CancelledYetSent()
    ensures exists steps :: IsRun(Begin(0), steps) && 0 in Run(Begin(0), steps).starts && 0 in Run(Begin(0), steps).rows
              && Run(Begin(0), steps).rows[0].status == Cancelled
  {
    RaceUpToClaim();
    var t := NOTICE + 1;
    var st0, c := Begin(0), [Schedule(0, t, "", 0), CancelRead(0, t), Pick(0, t), Claim(0, t)];
    var d := c + [Start(0, t)];
    Extend(st0, c, Start(0, t));
    Extend(st0, d, CancelWrite(0, t));
    assert IsRun(st0, d + [CancelWrite(0, t)]);
  }

  lemma RaceUpToClaim()
    ensures var t := NOTICE + 1;
            var c := [Schedule(0, t, "", 0), CancelRead(0, t), Pick(0, t), Claim(0, t)];
            && IsRun(Begin(0), c)
            && Run(Begin(0), c) == State(map[0 := Row(Sending, t, "")], {0}, {0}, [Job(0, "", Claimed)], [], [], t)
  {
    var t := NOTICE + 1;
    var st0, a := Begin(0), [Schedule(0, t, "", 0)];
    Extend(st0, [], Schedule(0, t, "", 0));
    assert [] + [Schedule(0, t, "", 0)] == a;
    assert Run(st0, a) == State(map[0 := Row(Pending, t, "")], {}, {}, [], [], [], 0);
    Extend(st0, a, CancelRead(0, t));
    var b := a + [CancelRead(0, t)];
    Extend(st0, b, Pick(0, t));
    Extend(st0, b + [Pick(0, t)], Claim(0, t));
    assert b + [Pick(0, t)] + [Claim(0, t)] == [Schedule(0, t, "", 0), CancelRead(0, t), Pick(0, t), Claim(0, t)];
  }

  lemma Extend(st: State, steps: seq<Step>, step: Step)
    requires IsRun(st, steps) && Enabled(Run(st, steps), step)
    ensures IsRun(st, steps + [step]) && Run(st, steps + [step]) == Apply(Run(st, steps), step)
  {
    assert (steps + [step])[..|steps|] == steps;
  }
}
