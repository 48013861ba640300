/** The limiter of the AI endpoints: at most four requests at a time, and at most ten per user in
    a window of one minute that starts with the user's first request. */
module AiLimiter {

  const MINUTE := 60 * 1_000_000_000
  const PER_WINDOW := 10
  const CONCURRENT := 4

  datatype Window = Window(started: int, count: nat)

  datatype State = State(users: map<string, Window>, active: int)

  /** The windows younger than a minute. */
  function Young(users: map<string, Window>, now: int): map<string, Window> {
    map u | u in users && now - users[u].started < MINUTE :: users[u]
  }

  predicate Granted(st: State, user: string, now: int) {
    var kept := Young(st.users, now);
    !((user in kept && kept[user].count >= PER_WINDOW) || st.active >= CONCURRENT)
  }

  function NextWindow(kept: map<string, Window>, user: string, now: int): Window {
    if user in kept && kept[user].count > 0 then Window(kept[user].started, kept[user].count + 1) else Window(now, 1)
  }

  function Acquire(st: State, user: string, now: int): State {
    var kept := Young(st.users, now);
    if Granted(st, user, now) then State(kept[user := NextWindow(kept, user, now)], st.active + 1)
    else State(kept, st.active)
  }

  class Limiter {
    var users: map<string, Window>
    var active: int

    function Contents(): State
      reads this
    {
      State(users, active)
    }

    constructor ()
      ensures Contents() == State(map[], 0)
    {
      users, active := map[], 0;
    }

    method DoAcquire(user: string, now: int) returns (ok: bool)
      modifies this
      ensures ok == Granted(old(Contents()), user, now)
      ensures Contents() == Acquire(old(Contents()), user, now)
    {
      var rest := users.Keys;
      while rest != {}
        invariant rest <= old(users).Keys
        invariant users ==
                  map u | u in old(users) && (u in rest || now - old(users)[u].started < MINUTE) :: old(users)[u]
        invariant active == old(active)
        decreases |rest|
      {
        var id :| id in rest;
        if now - users[id].started >= MINUTE { users := users - {id}; }
        rest := rest - {id};
      }
      assert users == Young(old(users), now);
      var window := if user in users then users[user] else Window(0, 0);
      if window.count >= PER_WINDOW || active >= CONCURRENT { return false; }
      if window.count == 0 { window := window.(started := now); }
      window := window.(count := window.count + 1);
      users := users[user := window];
      active := active + 1;
      return true;
    }

    /** The closure that ends a granted request. */
    method Release()
      modifies this`active
      ensures active == old(active) - 1
    {
      active := active - 1;
    }
  }

  // ---- Runs ----

  datatype Step =
    | Ask(user: string, now: int)
    | Done(now: int)

  /** A granted request, and the start of the window it was counted in. */
  datatype Grant = Grant(user: string, at: int, window: int)

  /** `outstanding` counts granted requests that have not ended. */
  datatype Run = Run(st: State, grants: seq<Grant>, outstanding: nat, clock: int)

  predicate Enabled(r: Run, step: Step) {
    r.clock <= step.now && (step.Done? ==> r.outstanding > 0)
  }

  function Apply(r: Run, step: Step): Run {
    match step
    case Done(now) =>
      Run(r.st.(active := r.st.active - 1), r.grants, if r.outstanding > 0 then r.outstanding - 1 else 0, now)
    case Ask(user, now) =>
      var st := Acquire(r.st, user, now);
      if Granted(r.st, user, now) then
        var started := NextWindow(Young(r.st.users, now), user, now).started;
        Run(st, r.grants + [Grant(user, now, started)], r.outstanding + 1, now)
      else Run(st, r.grants, r.outstanding, now)
  }

  function After(start: int, steps: seq<Step>): Run {
    if steps == [] then Run(State(map[], 0), [], 0, start)
    else Apply(After(start, steps[..|steps| - 1]), steps[|steps| - 1])
  }

  predicate IsRun(start: int, steps: seq<Step>) {
    steps == []
    || (IsRun(start, steps[..|steps| - 1]) && Enabled(After(start, steps[..|steps| - 1]), steps[|steps| - 1]))
  }

  function InWindow(grants: seq<Grant>, user: string, window: int): nat {
    if grants == [] then 0
    else
      var last := grants[|grants| - 1];
      InWindow(grants[..|grants| - 1], user, window) + if last.user == user && last.window == window then 1 else 0
  }

  function Between(grants: seq<Grant>, user: string, lo: int, hi: int): nat {
    if grants == [] then 0
    else
      var last := grants[|grants| - 1];
      Between(grants[..|grants| - 1], user, lo, hi) + if last.user == user && lo <= last.at <= hi then 1 else 0
  }

  lemma InWindowAppend(grants: seq<Grant>, g: Grant, user: string, window: int)
    ensures InWindow(grants + [g], user, window) == InWindow(grants, user, window) +
              if g.user == user && g.window == window then 1 else 0
  {
    assert (grants + [g])[..|grants|] == grants;
  }

  /** `active` is the number of outstanding grants, and every window in the table has counted the
      grants made in it. */
  ghost predicate Counted(r: Run) {
    && r.st.active == r.outstanding <= CONCURRENT
    && (forall u :: u in r.st.users ==> WindowCounted(r, u, r.st.users[u]))
  }

  predicate WindowCounted(r: Run, u: string, w: Window) {
    1 <= w.count <= PER_WINDOW && w.started <= r.clock && w.count == InWindow(r.grants, u, w.started)
  }

  ghost predicate WindowsBounded(r: Run) {
    forall u: string, w: int :: InWindow(r.grants, u, w) <= PER_WINDOW
  }

  /** Grants lie in their windows, and two windows of a user are a minute apart. */
  ghost predicate WindowsApart(r: Run) {
    && (forall i :: 0 <= i < |r.grants| ==> GrantInTime(r.grants[i], r.clock))
    && (forall i, j :: 0 <= i < |r.grants| && 0 <= j < |r.grants| ==> Apart(r.grants[i], r.grants[j]))
  }

  predicate GrantInTime(g: Grant, clock: int) { g.window <= g.at < g.window + MINUTE && g.at <= clock }

  predicate Apart(g: Grant, h: Grant) {
    g.user == h.user && g.window != h.window ==> g.window + MINUTE <= h.window || h.window + MINUTE <= g.window
  }

  /** A window that is gone from the table is over; the one in the table is the latest. */
  ghost predicate TableIsLatest(r: Run) {
    forall i :: 0 <= i < |r.grants| ==> Latest(r.st.users, r.grants[i], r.clock)
  }

  predicate Latest(users: map<string, Window>, g: Grant, clock: int) {
    if g.user in users then g.window == users[g.user].started || g.window + MINUTE <= users[g.user].started
    else g.window + MINUTE <= clock
  }

  ghost predicate Inv(r: Run) {
    Counted(r) && WindowsBounded(r) && WindowsApart(r) && TableIsLatest(r)
  }

  lemma DoneKeeps(r: Run, now: int)
    requires Inv(r) && Enabled(r, Done(now))
    ensures Inv(Apply(r, Done(now)))
  {
  }

  /** The clock moves on and old windows are dropped. */
  lemma DropKeeps(r: Run, now: int)
    requires Inv(r) && r.clock <= now
    ensures Inv(r.(st := State(Young(r.st.users, now), r.st.active), clock := now))
  {
    var users := Young(r.st.users, now);
    forall i | 0 <= i < |r.grants| ensures Latest(users, r.grants[i], now) {
      assert Latest(r.st.users, r.grants[i], r.clock);
    }
  }

  lemma {:induction false} NoneBefore(grants: seq<Grant>, user: string, window: int)
    requires forall g :: g in grants && g.user == user ==> g.window != window
    ensures InWindow(grants, user, window) == 0
  {
    if grants != [] { NoneBefore(grants[..|grants| - 1], user, window); }
  }

  /** A grant to `user` at `now`, counted in window `w`. */
  function WithGrant(r: Run, user: string, now: int, w: Window): Run {
    Run(State(r.st.users[user := w], r.st.active + 1), r.grants + [Grant(user, now, w.started)], r.outstanding + 1, now)
  }

  ghost predicate Grantable(r: Run, user: string, now: int, w: Window) {
    && Inv(r) && r.clock == now && r.st.active < CONCURRENT
    && (user in r.st.users ==> r.st.users[user].count < PER_WINDOW)
    && (forall u :: u in r.st.users ==> now - r.st.users[u].started < MINUTE)
    && w == NextWindow(r.st.users, user, now)
  }

  /** The window has counted the grants made in it so far, and there is room for one more. */
  lemma RoomInWindow(r: Run, user: string, now: int, w: Window)
    requires Grantable(r, user, now, w)
    ensures InWindow(r.grants, user, w.started) + 1 == w.count <= PER_WINDOW && w.started <= now
  {
    if user !in r.st.users {
      forall h | h in r.grants && h.user == user ensures h.window != now {
        var i :| 0 <= i < |r.grants| && r.grants[i] == h;
        assert Latest(r.st.users, r.grants[i], r.clock);
      }
      NoneBefore(r.grants, user, now);
    }
  }

  lemma GrantKeepsCounts(r: Run, user: string, now: int, w: Window)
    requires Grantable(r, user, now, w)
    ensures Counted(WithGrant(r, user, now, w))
  {
    RoomInWindow(r, user, now, w);
    var after := WithGrant(r, user, now, w);
    forall u | u in after.st.users ensures WindowCounted(after, u, after.st.users[u]) {
      InWindowAppend(r.grants, Grant(user, now, w.started), u, after.st.users[u].started);
      if u != user { assert WindowCounted(r, u, r.st.users[u]); }
    }
  }

  lemma GrantKeepsBounds(r: Run, user: string, now: int, w: Window)
    requires Grantable(r, user, now, w)
    ensures WindowsBounded(WithGrant(r, user, now, w))
  {
    RoomInWindow(r, user, now, w);
    forall u: string, x: int ensures InWindow(WithGrant(r, user, now, w).grants, u, x) <= PER_WINDOW {
      InWindowAppend(r.grants, Grant(user, now, w.started), u, x);
      assert InWindow(r.grants, u, x) <= PER_WINDOW;
    }
  }

  lemma GrantKeepsOrder(r: Run, user: string, now: int, w: Window)
    requires Grantable(r, user, now, w)
    ensures WindowsApart(WithGrant(r, user, now, w)) && TableIsLatest(WithGrant(r, user, now, w))
  {
    var g := Grant(user, now, w.started);
    forall i | 0 <= i < |r.grants|
      ensures Latest(r.st.users, r.grants[i], now) && Apart(r.grants[i], g) && Apart(g, r.grants[i])
    {
      assert Latest(r.st.users, r.grants[i], r.clock);
    }
  }

  /** Granting on a table whose windows are all young. */
  lemma GrantKeeps(r: Run, user: string, now: int, w: Window)
    requires Grantable(r, user, now, w)
    ensures Inv(WithGrant(r, user, now, w))
  {
    GrantKeepsCounts(r, user, now, w);
    GrantKeepsBounds(r, user, now, w);
    GrantKeepsOrder(r, user, now, w);
  }

  lemma StepKeeps(r: Run, step: Step)
    requires Inv(r) && Enabled(r, step)
    ensures Inv(Apply(r, step))
  {
    match step
    case Done(now) => DoneKeeps(r, now);
    case Ask(user, now) =>
      DropKeeps(r, now);
      if Granted(r.st, user, now) {
        var kept := Young(r.st.users, now);
        GrantKeeps(r.(st := State(kept, r.st.active), clock := now), user, now, NextWindow(kept, user, now));
      }
  }

  lemma {:induction false} RunKeeps(start: int, steps: seq<Step>)
    requires IsRun(start, steps)
    ensures Inv(After(start, steps))
  {
    if steps != [] {
      RunKeeps(start, steps[..|steps| - 1]);
      StepKeeps(After(start, steps[..|steps| - 1]), steps[|steps| - 1]);
    }
  }

  ghost predicate AllYoung(r: Run) {
    forall u :: u in r.st.users ==> 0 <= r.clock - r.st.users[u].started < MINUTE
  }

  lemma AskLeavesYoung(r: Run, user: string, now: int)
    requires Inv(r) && r.clock <= now
    ensures AllYoung(Apply(r, Ask(user, now)))
  {
  }

  ghost predicate Sound(r: Run) {
    && 0 <= r.st.active == r.outstanding <= CONCURRENT
    && forall u :: u in r.st.users ==> 1 <= r.st.users[u].count <= PER_WINDOW
  }

  lemma InvIsSound(r: Run)
    requires Inv(r)
    ensures Sound(r)
  {
  }

  /** Over every run the number of active requests is the number of grants not yet released, and
      never above four; no window counts more than ten grants; and right after a request every
      window in the table is younger than a minute. */
  lemma LimiterIsSound(start: int, steps: seq<Step>)
    requires IsRun(start, steps)
    ensures Sound(After(start, steps)) && WindowsBounded(After(start, steps))
    ensures steps != [] && steps[|steps| - 1].Ask? ==> AllYoung(After(start, steps))
  {
    RunKeeps(start, steps);
    InvIsSound(After(start, steps));
    if steps != [] && steps[|steps| - 1].Ask? {
      RunKeeps(start, steps[..|steps| - 1]);
      AskLeavesYoung(After(start, steps[..|steps| - 1]), steps[|steps| - 1].user, steps[|steps| - 1].now);
    }
  }

  /** A request is refused only when four are active or the user has had ten in a window that is
      younger than a minute. */
  lemma RefusedOnlyWhenFull(start: int, steps: seq<Step>, user: string, now: int)
    requires IsRun(start, steps) && After(start, steps).clock <= now
    ensures var r := After(start, steps);
            !Granted(r.st, user, now) <==>
            r.outstanding == CONCURRENT
            || (user in r.st.users && now - r.st.users[user].started < MINUTE
                && InWindow(r.grants, user, r.st.users[user].started) == PER_WINDOW)
  {
    RunKeeps(start, steps);
  }

  // ---- The bound over any minute ----

  /** Grants of an interval that all lie in one of two windows are counted by the two. */
  lemma {:induction false} TwoWindowsCover(grants: seq<Grant>, user: string, lo: int, hi: int, a: int, b: int)
    requires a != b
    requires forall g :: g in grants && g.user == user && lo <= g.at <= hi ==> g.window == a || g.window == b
    ensures Between(grants, user, lo, hi) <= InWindow(grants, user, a) + InWindow(grants, user, b)
  {
    if grants != [] {
      TwoWindowsCover(grants[..|grants| - 1], user, lo, hi, a, b);
      assert grants[|grants| - 1] in grants;
    }
  }

  /** No closed interval of 60 seconds meets three windows of one user. */
  lemma NoThreeWindows(r: Run, f: Grant, g: Grant, h: Grant, t: int)
    requires WindowsApart(r) && f in r.grants && g in r.grants && h in r.grants && f.user == g.user == h.user
    requires t <= f.at <= t + MINUTE && t <= g.at <= t + MINUTE && t <= h.at <= t + MINUTE
    ensures f.window == g.window || g.window == h.window || f.window == h.window
  {
    assert Apart(f, g) && Apart(g, h) && Apart(f, h);
  }

  lemma GrantsBounded(r: Run, user: string, t: int)
    requires WindowsBounded(r) && WindowsApart(r)
    ensures Between(r.grants, user, t, t + MINUTE) <= 2 * PER_WINDOW
  {
    if f :| f in r.grants && f.user == user && t <= f.at <= t + MINUTE {
      if g :| g in r.grants && g.user == user && t <= g.at <= t + MINUTE && g.window != f.window {
        forall h | h in r.grants && h.user == user && t <= h.at <= t + MINUTE
          ensures h.window == f.window || h.window == g.window
        {
          NoThreeWindows(r, f, g, h, t);
        }
        TwoWindowsCover(r.grants, user, t, t + MINUTE, f.window, g.window);
      } else {
        TwoWindowsCover(r.grants, user, t, t + MINUTE, f.window, f.window + 1);
      }
    } else {
      TwoWindowsCover(r.grants, user, t, t + MINUTE, 0, 1);
    }
  }

  /** Any closed interval of 60 seconds holds at most twenty grants of one user. */
  lemma MinuteBound(start: int, steps: seq<Step>, user: string, t: int)
    requires IsRun(start, steps)
    ensures Between(After(start, steps).grants, user, t, t + MINUTE) <= 2 * PER_WINDOW
  {
    RunKeeps(start, steps);
    GrantsBounded(After(start, steps), user, t);
  }
}
