/** The sliding-window rate limits for sending and for the mail protocols. Accepted events are rows
    of a table; a request is refused when the last day, or the last minute, already holds the
    user's limit. A worker deletes rows older than a day at any moment. */
module SlidingWindow {

  const SECOND := 1_000_000_000
  const MINUTE := 60 * SECOND
  const DAY := 86_400 * SECOND

  datatype Event = Event(user: string, at: int)

  /** A limit of 0 is no limit. */
  datatype Limits = Limits(daily: int, minute: int)

  datatype Decision = Unlimited | DailyExceeded | MinuteExceeded | Recorded

  /** `SELECT COUNT(*) ... WHERE user_id=? AND created_at>=?` */
  function Count(rows: seq<Event>, user: string, since: int): (n: nat)
    ensures n <= |rows|
  {
    if rows == [] then 0
    else
      var last := rows[|rows| - 1];
      Count(rows[..|rows| - 1], user, since) + if last.user == user && last.at >= since then 1 else 0
  }

  function Decide(rows: seq<Event>, user: string, exempt: bool, l: Limits, now: int): Decision {
    if exempt || (l.daily == 0 && l.minute == 0) then Unlimited
    else if l.daily > 0 && Count(rows, user, now - DAY) >= l.daily then DailyExceeded
    else if l.minute > 0 && Count(rows, user, now - MINUTE) >= l.minute then MinuteExceeded
    else Recorded
  }

  function Record(rows: seq<Event>, d: Decision, user: string, now: int): seq<Event> {
    if d == Recorded then rows + [Event(user, now)] else rows
  }

  /** The rows that survive `DELETE ... WHERE created_at<?`. */
  function Since(rows: seq<Event>, cutoff: int): seq<Event> {
    if rows == [] then []
    else
      var last := rows[|rows| - 1];
      Since(rows[..|rows| - 1], cutoff) + if last.at < cutoff then [] else [last]
  }

  /** Where the rows stood that survive: every row at or after the cutoff, each once, in order. */
  function Places(rows: seq<Event>, cutoff: int): (p: seq<nat>)
    ensures forall k :: k in p ==> k < |rows|
  {
    if rows == [] then []
    else
      var n := |rows| - 1;
      Places(rows[..n], cutoff) + if rows[n].at < cutoff then [] else [n]
  }

  predicate KeptAt(rows: seq<Event>, kept: seq<Event>, p: seq<nat>) {
    && |kept| == |p|
    && (forall k :: 0 <= k < |p| ==> p[k] < |rows| && kept[k] == rows[p[k]])
    && (forall j, k :: 0 <= j < k < |p| ==> p[j] < p[k])
  }

  /** The cleanup keeps exactly the rows at or after the cutoff, in their order. */
  lemma {:induction false} SinceKeepsExactly(rows: seq<Event>, cutoff: int)
    ensures KeptAt(rows, Since(rows, cutoff), Places(rows, cutoff))
    ensures forall i :: 0 <= i < |rows| ==> (i in Places(rows, cutoff) <==> rows[i].at >= cutoff)
  {
    if rows != [] {
      var n := |rows| - 1;
      SinceKeepsExactly(rows[..n], cutoff);
      OneRowMore(rows, Since(rows[..n], cutoff), Places(rows[..n], cutoff), cutoff);
    }
  }

  lemma OneRowMore(rows: seq<Event>, kept: seq<Event>, p: seq<nat>, cutoff: int)
    requires rows != [] && KeptAt(rows[..|rows| - 1], kept, p)
    requires forall i :: 0 <= i < |rows| - 1 ==> (i in p <==> rows[i].at >= cutoff)
    ensures var n := |rows| - 1;
            var kept' := kept + if rows[n].at < cutoff then [] else [rows[n]];
            var p' := p + if rows[n].at < cutoff then [] else [n];
            KeptAt(rows, kept', p') && forall i :: 0 <= i < |rows| ==> (i in p' <==> rows[i].at >= cutoff)
  {
    var n := |rows| - 1;
    assert forall k :: 0 <= k < |p| ==> p[k] < n;
  }

  /** And each as often as it was there. */
  lemma {:induction false} SinceKeepsMultiplicity(rows: seq<Event>, cutoff: int, e: Event)
    ensures multiset(Since(rows, cutoff))[e] == if e.at >= cutoff then multiset(rows)[e] else 0
  {
    if rows != [] {
      var n := |rows| - 1;
      SinceKeepsMultiplicity(rows[..n], cutoff, e);
      assert rows == rows[..n] + [rows[n]];
    }
  }

  lemma SinceMembers(rows: seq<Event>, cutoff: int)
    ensures forall e :: e in Since(rows, cutoff) <==> e in rows && e.at >= cutoff
  {
    forall e ensures e in Since(rows, cutoff) <==> e in rows && e.at >= cutoff {
      SinceKeepsMultiplicity(rows, cutoff, e);
      assert e in Since(rows, cutoff) <==> multiset(Since(rows, cutoff))[e] > 0;
      assert e in rows <==> multiset(rows)[e] > 0;
    }
  }

  class EventTable {
    var rows: seq<Event>

    constructor ()
      ensures rows == []
    {
      rows := [];
    }

    method CheckAndRecord(user: string, exempt: bool, limits: Limits, now: int) returns (d: Decision)
      modifies this
      ensures d == Decide(old(rows), user, exempt, limits, now)
      ensures rows == Record(old(rows), d, user, now)
      ensures rows == old(rows) + if d == Recorded then [Event(user, now)] else []
    {
      if exempt { return Unlimited; }
      if limits.daily == 0 && limits.minute == 0 { return Unlimited; }
      if limits.daily > 0 {
        var count := Count(rows, user, now - DAY);
        if count >= limits.daily { return DailyExceeded; }
      }
      if limits.minute > 0 {
        var count := Count(rows, user, now - MINUTE);
        if count >= limits.minute { return MinuteExceeded; }
      }
      rows := rows + [Event(user, now)];
      return Recorded;
    }

    method CleanupStaleEvents(now: int)
      modifies this
      ensures rows == Since(old(rows), now - DAY)
      ensures forall e :: e in rows <==> e in old(rows) && e.at >= now - DAY
      ensures KeptAt(old(rows), rows, Places(old(rows), now - DAY))
    {
      SinceKeepsExactly(rows, now - DAY);
      SinceMembers(rows, now - DAY);
      rows := Since(rows, now - DAY);
    }
  }

  // ---- Runs ----

  datatype Step =
    | Request(user: string, exempt: bool, now: int)
    | Cleanup(now: int)

  /** The table, every event ever recorded, and the answers given so far. */
  datatype State = State(rows: seq<Event>, history: seq<Event>, decisions: seq<Decision>)

  function Apply(lim: string -> Limits, st: State, step: Step): State {
    match step
    case Cleanup(now) => st.(rows := Since(st.rows, now - DAY))
    case Request(user, exempt, now) =>
      var d := Decide(st.rows, user, exempt, lim(user), now);
      State(Record(st.rows, d, user, now), Record(st.history, d, user, now), st.decisions + [d])
  }

  function Run(lim: string -> Limits, steps: seq<Step>): State {
    if steps == [] then State([], [], [])
    else Apply(lim, Run(lim, steps[..|steps| - 1]), steps[|steps| - 1])
  }

  /** The same requests, and the worker never runs. */
  function NoCleanup(steps: seq<Step>): seq<Step> {
    if steps == [] then []
    else
      var last := steps[|steps| - 1];
      NoCleanup(steps[..|steps| - 1]) + if last.Cleanup? then [] else [last]
  }

  predicate ClockNeverGoesBack(steps: seq<Step>) {
    forall i, j :: 0 <= i < j < |steps| ==> steps[i].now <= steps[j].now
  }

  lemma {:induction false} SinceTwice(rows: seq<Event>, a: int, b: int)
    requires a <= b
    ensures Since(Since(rows, a), b) == Since(rows, b)
  {
    if rows != [] {
      var front, last := rows[..|rows| - 1], rows[|rows| - 1];
      SinceTwice(front, a, b);
      if last.at >= a {
        SinceAppend(Since(front, a), last, b);
        assert Since(rows, a) == Since(front, a) + [last];
      } else {
        assert Since(rows, a) == Since(front, a);
      }
    }
  }

  lemma SinceAppend(rows: seq<Event>, e: Event, cutoff: int)
    ensures Since(rows + [e], cutoff) == Since(rows, cutoff) + if e.at < cutoff then [] else [e]
  {
    assert (rows + [e])[..|rows|] == rows;
  }

  lemma CountAppend(rows: seq<Event>, e: Event, user: string, since: int)
    ensures Count(rows + [e], user, since) == Count(rows, user, since) +
              if e.user == user && e.at >= since then 1 else 0
  {
    assert (rows + [e])[..|rows|] == rows;
  }

  /** Old rows do not weigh on a count that starts after them. */
  lemma {:induction false} CountSince(rows: seq<Event>, cutoff: int, user: string, since: int)
    requires cutoff <= since
    ensures Count(Since(rows, cutoff), user, since) == Count(rows, user, since)
  {
    if rows != [] {
      var front, last := rows[..|rows| - 1], rows[|rows| - 1];
      CountSince(front, cutoff, user, since);
      if last.at >= cutoff {
        CountAppend(Since(front, cutoff), last, user, since);
        assert Since(rows, cutoff) == Since(front, cutoff) + [last];
      } else {
        assert Since(rows, cutoff) == Since(front, cutoff);
      }
    }
  }

  /** The table still holds every event of the last day, as seen from `clock`. */
  ghost predicate KeepsLastDay(st: State, clock: int) {
    Since(st.rows, clock - DAY) == Since(st.history, clock - DAY)
  }

  lemma LaterStill(st: State, clock: int, later: int)
    requires KeepsLastDay(st, clock) && clock <= later
    ensures KeepsLastDay(st, later)
  {
    SinceTwice(st.rows, clock - DAY, later - DAY);
    SinceTwice(st.history, clock - DAY, later - DAY);
  }

  /** Deciding on the cleaned table is deciding on the whole history. */
  lemma SameDecision(st: State, user: string, exempt: bool, l: Limits, now: int)
    requires KeepsLastDay(st, now)
    ensures Decide(st.rows, user, exempt, l, now) == Decide(st.history, user, exempt, l, now)
  {
    forall since | since >= now - DAY ensures Count(st.rows, user, since) == Count(st.history, user, since) {
      CountSince(st.rows, now - DAY, user, since);
      CountSince(st.history, now - DAY, user, since);
    }
  }

  lemma StepKeepsLastDay(lim: string -> Limits, st: State, step: Step)
    requires KeepsLastDay(st, step.now)
    ensures KeepsLastDay(Apply(lim, st, step), step.now)
  {
    match step
    case Cleanup(now) => SinceTwice(st.rows, now - DAY, now - DAY);
    case Request(user, exempt, now) =>
      SinceAppend(st.rows, Event(user, now), now - DAY);
      SinceAppend(st.history, Event(user, now), now - DAY);
  }

  lemma {:induction false} RunKeepsLastDay(lim: string -> Limits, steps: seq<Step>)
    requires ClockNeverGoesBack(steps) && |steps| > 0
    ensures KeepsLastDay(Run(lim, steps), steps[|steps| - 1].now)
  {
    var n := |steps| - 1;
    var before := Run(lim, steps[..n]);
    if n > 0 {
      RunKeepsLastDay(lim, steps[..n]);
      LaterStill(before, steps[n - 1].now, steps[n].now);
    }
    StepKeepsLastDay(lim, before, steps[n]);
  }

  lemma BeforeStep(lim: string -> Limits, steps: seq<Step>)
    requires ClockNeverGoesBack(steps) && |steps| > 0
    ensures KeepsLastDay(Run(lim, steps[..|steps| - 1]), steps[|steps| - 1].now)
  {
    var n := |steps| - 1;
    if n > 0 {
      RunKeepsLastDay(lim, steps[..n]);
      LaterStill(Run(lim, steps[..n]), steps[n - 1].now, steps[n].now);
    }
  }

  /** The cleanup is invisible: wherever the worker runs, every request gets the answer it would
      have got had the worker never run. */
  lemma {:induction false} CleanupChangesNoDecision(lim: string -> Limits, steps: seq<Step>)
    requires ClockNeverGoesBack(steps)
    ensures Run(lim, NoCleanup(steps)).decisions == Run(lim, steps).decisions
    ensures Run(lim, NoCleanup(steps)).rows == Run(lim, steps).history
  {
    if steps != [] {
      var n := |steps| - 1;
      var front, last := steps[..n], steps[n];
      CleanupChangesNoDecision(lim, front);
      if last.Request? {
        BeforeStep(lim, steps);
        SameDecision(Run(lim, front), last.user, last.exempt, lim(last.user), last.now);
        assert NoCleanup(steps) == NoCleanup(front) + [last];
        assert (NoCleanup(front) + [last])[..|NoCleanup(front)|] == NoCleanup(front);
      } else {
        assert NoCleanup(steps) == NoCleanup(front);
      }
    }
  }

  // ---- The bound ----

  /** How many of the user's events lie in the closed interval from `lo` to `hi`. */
  function Within(events: seq<Event>, user: string, lo: int, hi: int): nat {
    if events == [] then 0
    else
      var last := events[|events| - 1];
      Within(events[..|events| - 1], user, lo, hi) + if last.user == user && lo <= last.at <= hi then 1 else 0
  }

  lemma {:induction false} WithinIsCounted(events: seq<Event>, user: string, lo: int, hi: int, since: int)
    requires since <= lo
    ensures Within(events, user, lo, hi) <= Count(events, user, since)
  {
    if events != [] {
      WithinIsCounted(events[..|events| - 1], user, lo, hi, since);
    }
  }

  /** How full the window was that ended with event `i`, that event included. */
  function AtAdmission(events: seq<Event>, i: nat, user: string, width: int): nat
    requires i < |events|
  {
    Count(events[..i + 1], user, events[i].at - width)
  }

  /** When each event was admitted, the window that ends with it held no more than the limit. */
  ghost predicate AdmittedUnder(events: seq<Event>, user: string, width: int, limit: int) {
    forall i :: 0 <= i < |events| && events[i].user == user ==> AtAdmission(events, i, user, width) <= limit
  }

  lemma FrontAdmitted(events: seq<Event>, user: string, width: int, limit: int)
    requires AdmittedUnder(events, user, width, limit) && |events| > 0
    ensures AdmittedUnder(events[..|events| - 1], user, width, limit)
  {
    var front := events[..|events| - 1];
    forall i | 0 <= i < |front| && front[i].user == user ensures AtAdmission(front, i, user, width) <= limit {
      assert front[..i + 1] == events[..i + 1];
      assert AtAdmission(events, i, user, width) <= limit;
    }
  }

  /** Windows that end with an event bound every window of the same width. */
  lemma {:induction false} EveryIntervalBounded(events: seq<Event>, user: string, width: int, limit: int, t: int)
    requires AdmittedUnder(events, user, width, limit) && limit >= 0
    ensures Within(events, user, t, t + width) <= limit
  {
    if events != [] {
      var n := |events| - 1;
      var last := events[n];
      if last.user == user && t <= last.at <= t + width {
        assert events[..n + 1] == events;
        assert AtAdmission(events, n, user, width) <= limit;
        WithinIsCounted(events, user, t, t + width, last.at - width);
      } else {
        FrontAdmitted(events, user, width, limit);
        EveryIntervalBounded(events[..n], user, width, limit, t);
      }
    }
  }

  lemma AppendAdmitted(events: seq<Event>, e: Event, user: string, width: int, limit: int)
    requires AdmittedUnder(events, user, width, limit) && width >= 0
    requires e.user == user ==> Count(events, user, e.at - width) < limit
    ensures AdmittedUnder(events + [e], user, width, limit)
  {
    var all := events + [e];
    forall i | 0 <= i < |all| && all[i].user == user ensures AtAdmission(all, i, user, width) <= limit {
      if i == |events| {
        assert all[..i + 1] == all;
        CountAppend(events, e, user, e.at - width);
      } else {
        assert all[..i + 1] == events[..i + 1];
        assert AtAdmission(events, i, user, width) <= limit;
      }
    }
  }

  ghost predicate Admitted(events: seq<Event>, user: string, l: Limits) {
    && (l.daily > 0 ==> AdmittedUnder(events, user, DAY, l.daily))
    && (l.minute > 0 ==> AdmittedUnder(events, user, MINUTE, l.minute))
  }

  lemma RecordedAdmitted(history: seq<Event>, who: string, exempt: bool, l: Limits, now: int, user: string,
        mine: Limits)
    requires Admitted(history, user, mine) && Decide(history, who, exempt, l, now) == Recorded
    requires who == user ==> l == mine
    ensures Admitted(history + [Event(who, now)], user, mine)
  {
    var e := Event(who, now);
    if mine.daily > 0 { AppendAdmitted(history, e, user, DAY, mine.daily); }
    if mine.minute > 0 { AppendAdmitted(history, e, user, MINUTE, mine.minute); }
  }

  lemma {:induction false} HistoryAdmitted(lim: string -> Limits, steps: seq<Step>, user: string)
    requires ClockNeverGoesBack(steps)
    ensures Admitted(Run(lim, steps).history, user, lim(user))
  {
    if steps != [] {
      var n := |steps| - 1;
      var front, last := steps[..n], steps[n];
      HistoryAdmitted(lim, front, user);
      BeforeStep(lim, steps);
      StepAdmitted(lim, Run(lim, front), last, user);
    }
  }

  lemma StepAdmitted(lim: string -> Limits, st: State, step: Step, user: string)
    requires KeepsLastDay(st, step.now) && Admitted(st.history, user, lim(user))
    ensures Admitted(Apply(lim, st, step).history, user, lim(user))
  {
    if step.Request? {
      SameDecision(st, step.user, step.exempt, lim(step.user), step.now);
      if Decide(st.history, step.user, step.exempt, lim(step.user), step.now) == Recorded {
        RecordedAdmitted(st.history, step.user, step.exempt, lim(step.user), step.now, user, lim(user));
      }
    }
  }

  /** Whatever the interleaving of users, requests and cleanups: no closed interval of 24 hours
      holds more than the daily limit of one user's accepted events, and none of 60 seconds more
      than the minute limit. */
  lemma LimitsHold(lim: string -> Limits, steps: seq<Step>, user: string, t: int)
    requires ClockNeverGoesBack(steps)
    ensures lim(user).daily > 0 ==> Within(Run(lim, steps).history, user, t, t + DAY) <= lim(user).daily
    ensures lim(user).minute > 0 ==> Within(Run(lim, steps).history, user, t, t + MINUTE) <= lim(user).minute
  {
    HistoryAdmitted(lim, steps, user);
    var h := Run(lim, steps).history;
    if lim(user).daily > 0 { EveryIntervalBounded(h, user, DAY, lim(user).daily, t); }
    if lim(user).minute > 0 { EveryIntervalBounded(h, user, MINUTE, lim(user).minute, t); }
  }

  /** One more accepted event would break the bound for the interval ending now. */
  predicate WouldBreak(history: seq<Event>, user: string, width: int, limit: int, now: int) {
    limit > 0 && Within(history + [Event(user, now)], user, now - width, now) > limit
  }

  /** And nothing is refused needlessly: a request that is not exempt is refused exactly when one more
      accepted event would break one of the two bounds for the interval ending now, the daily one
      first; and it goes unrecorded though not refused exactly when it is exempt or has no limit. */
  lemma RefusedExactlyWhenFull(lim: string -> Limits, steps: seq<Step>, user: string, exempt: bool, now: int)
    requires ClockNeverGoesBack(steps + [Request(user, exempt, now)])
    ensures var st, l := Run(lim, steps), lim(user);
            var d, day := Decide(st.rows, user, exempt, l, now), WouldBreak(st.history, user, DAY, l.daily, now);
            && (d == DailyExceeded <==> !exempt && day)
            && (d == MinuteExceeded <==> !exempt && !day && WouldBreak(st.history, user, MINUTE, l.minute, now))
            && (d == Unlimited <==> exempt || l == Limits(0, 0))
  {
    var all := steps + [Request(user, exempt, now)];
    assert all[..|steps|] == steps;
    BeforeStep(lim, all);
    var st := Run(lim, steps);
    SameDecision(st, user, exempt, lim(user), now);
    assert (st.history + [Event(user, now)])[..|st.history|] == st.history;
    HistoryIsPast(lim, steps, now);
    CountIsWithin(st.history, user, now - DAY, now);
    CountIsWithin(st.history, user, now - MINUTE, now);
  }

  predicate RequestOf(step: Step, e: Event) { step.Request? && e == Event(step.user, step.now) }

  /** Step `i` of the run is a request, and it was recorded. */
  predicate RecordedAt(lim: string -> Limits, steps: seq<Step>, i: nat)
    requires i < |steps|
  {
    match steps[i]
    case Cleanup(_) => false
    case Request(user, exempt, now) => Decide(Run(lim, steps[..i]).rows, user, exempt, lim(user), now) == Recorded
  }

  /** The events ever recorded are those of the requests answered so, one each, in their order. */
  lemma {:induction false} HistoryIsWhatWasRecorded(lim: string -> Limits, steps: seq<Step>) returns (at: seq<nat>)
    ensures var history := Run(lim, steps).history;
            && |at| == |history| && (forall k :: 0 <= k < |at| ==> at[k] < |steps|)
            && (forall k :: 0 <= k < |at| ==> RequestOf(steps[at[k]], history[k]))
            && (forall j, k :: 0 <= j < k < |at| ==> at[j] < at[k])
            && forall i :: 0 <= i < |steps| ==> (i in at <==> RecordedAt(lim, steps, i))
  {
    at := [];
    if steps != [] {
      var n := |steps| - 1;
      at := HistoryIsWhatWasRecorded(lim, steps[..n]);
      forall i | 0 <= i < n ensures RecordedAt(lim, steps, i) <==> RecordedAt(lim, steps[..n], i) {
        assert steps[..n][..i] == steps[..i];
      }
      if RecordedAt(lim, steps, n) { at := at + [n]; }
    }
  }

  lemma {:induction false} HistoryIsPast(lim: string -> Limits, steps: seq<Step>, now: int)
    requires forall i :: 0 <= i < |steps| ==> steps[i].now <= now
    ensures forall e :: e in Run(lim, steps).history ==> e.at <= now
  {
    if steps != [] {
      HistoryIsPast(lim, steps[..|steps| - 1], now);
    }
  }

  lemma {:induction false} CountIsWithin(events: seq<Event>, user: string, lo: int, hi: int)
    requires forall e :: e in events ==> e.at <= hi
    ensures Within(events, user, lo, hi) == Count(events, user, lo)
  {
    if events != [] {
      CountIsWithin(events[..|events| - 1], user, lo, hi);
    }
  }
}
