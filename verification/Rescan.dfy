/** A second look at the same files: exactly which files it refuses and when it changes nothing, told
    from the state before it. */
module Rescan {
  import opened Common
  import opened StoreModel
  import opened StoreInvariants
  import opened StoreSteps
  import opened MaildirScan
  import opened Reconcile
  import opened ReconcilePass

  // ---- A second pass ----

  /** Nothing changed but the time a row was last looked at. */
  ghost predicate Unchanged(s: Store, t: Store) {
    && t.folders == s.folders && t.files == s.files && t.rows.Keys == s.rows.Keys && s.nextId <= t.nextId
    && forall id :: id in s.rows ==> t.rows[id] == s.rows[id].(updatedAt := t.rows[id].updatedAt)
  }

  /** What a pass leaves alone: rows of files that are gone or were never there. */
  ghost predicate OrphansUntouched(s: Store, t: Store) {
    forall id :: id in s.rows && !Live(s, id) ==> id in t.rows && t.rows[id] == s.rows[id]
  }

  ghost predicate Quiet(s: Store, t: Store) {
    Unchanged(s, t) && OrphansUntouched(s, t)
  }

  lemma RescanFile(s: Store, f: nat, p: Path, env: Env)
    requires Scannable(s, f, p) && Indexed(s, f, p) && p in s.files && p !in env.unreadable
    ensures Quiet(s, SyncFile(s, f, p, env).0) && SyncFile(s, f, p, env).1 == Handled
  {
    var id :| Indexes(s, id, f, p);
    var s1 := Numbered(s, p);
    NumberedScannable(s, f, p);
    RefreshOnlyTouches(s1, id, f, p, FileMid(s, p), env.now);
    HandledWhenExisting(s, f, p, env);
    TouchedIsQuiet(s, s1, id, env.now);
  }

  lemma TouchedIsQuiet(s: Store, s1: Store, id: nat, now: int)
    requires Live(s, id) && (s1 == s || s1 == TakeId(s))
    ensures Quiet(s, s1.(rows := s1.rows[id := s1.rows[id].(updatedAt := now)]))
  {
  }

  /** The state `syncMaildirFile` looks at: an id is taken for a message without one. */
  function Numbered(s: Store, p: Path): Store
    requires p in s.files
  {
    if s.files[p] == NO_MID then TakeId(s) else s
  }

  lemma NumberedScannable(s: Store, f: nat, p: Path)
    requires Scannable(s, f, p) && p in s.files
    ensures Scannable(Numbered(s, p), f, p)
    ensures forall id :: Indexes(s, id, f, p) ==> Indexes(Numbered(s, p), id, f, p)
    ensures FlagsOnDisk(Numbered(s, p), f, p) == FlagsOnDisk(s, f, p)
  {
    TakeIdKeeps(s);
  }

  lemma HandledWhenExisting(s: Store, f: nat, p: Path, env: Env)
    requires f in s.folders && p.Inside? && p in s.files && p !in env.unreadable
    requires SyncExisting(Numbered(s, p), f, p, FileMid(s, p), FlagsOnDisk(s, f, p), env.now).1
    ensures SyncFile(s, f, p, env) ==
              (SyncExisting(Numbered(s, p), f, p, FileMid(s, p), FlagsOnDisk(s, f, p), env.now).0, Handled)
  {
  }

  lemma RefreshOnlyTouches(s: Store, id: nat, f: nat, p: Path, mid: Mid, now: int)
    requires Scannable(s, f, p) && Indexes(s, id, f, p)
    ensures SyncExisting(s, f, p, mid, FlagsOnDisk(s, f, p), now) ==
            (s.(rows := s.rows[id := s.rows[id].(updatedAt := now)]), true)
  {
    assert id in AtPath(s, p.mailbox, p);
    AtPathIs(s, id, p);
    assert First(s, AtPath(s, p.mailbox, p)) == id;
    assert Found(s.rows[id], p, FlagsOnDisk(s, f, p), now) == s.rows[id].(updatedAt := now);
  }

  lemma AtPathIs(s: Store, id: nat, p: Path)
    requires Inv(s) && p.Inside? && id in AtPath(s, p.mailbox, p)
    ensures AtPath(s, p.mailbox, p) == {id}
  {
    OnlyAtPath(s, id, p);
  }

  lemma UnchangedIndexed(s: Store, t: Store, e: Entry)
    requires Unchanged(s, t) && EntryOk(s, e) && Indexed(s, e.folder, e.path)
    ensures EntryOk(t, e) && Indexed(t, e.folder, e.path)
  {
    var id :| Indexes(s, id, e.folder, e.path);
    assert Indexes(t, id, e.folder, e.path);
  }

  lemma FailedParsed(s: Store, f: nat, p: Path, mid: Mid, flags: (bool, bool), env: Env)
    requires Scannable(s, f, p) && UnderRoot(s) && SyncParsed(s, f, p, mid, flags, env).1 == Failed
    ensures SyncParsed(s, f, p, mid, flags, env).0 == s
  {
    assert !SyncExisting(s, f, p, mid, flags, env.now).1 && !Known(s, f, p, mid);
    assert Settled(s, f, p, mid).None?;
    UnsettledIsDuplicate(s, f, p, mid);
  }

  lemma TakeIdIsQuiet(s: Store)
    ensures Quiet(s, s) && Quiet(s, TakeId(s))
  {
  }

  /** A file that is counted as an error leaves no trace. */
  lemma FailedIsQuiet(s: Store, f: nat, p: Path, env: Env)
    requires Scannable(s, f, p) && UnderRoot(s) && SyncFile(s, f, p, env).1 == Failed
    ensures Quiet(s, SyncFile(s, f, p, env).0)
  {
    TakeIdIsQuiet(s);
    if p in s.files && p !in env.unreadable {
      var s1 := Numbered(s, p);
      NumberedScannable(s, f, p);
      var mid, flags := FileMid(s, p), FlagsOnDisk(s, f, p);
      assert SyncFile(s, f, p, env) == SyncParsed(s1, f, p, mid, flags, env);
      FailedParsed(s1, f, p, mid, flags, env);
    }
  }

  lemma QuietThen(s: Store, t: Store, u: Store)
    requires Quiet(s, t) && Quiet(t, u)
    ensures Quiet(s, u)
  {
  }

  ghost predicate Sane(s: Store) {
    Inv(s) && UnderRoot(s) && MidsFresh(s)
  }

  /** The parts of what a pass leaves that the proofs below build on. */
  lemma PassBasics(s: Store, work: seq<Entry>, env: Env)
    requires Sane(s) && Listing(s, work)
    ensures var r := ScanAll(s, work, env);
            Sane(r.store) && r.failed <= Paths(work) && LiveKept(s, r.store)
  {
    ScanReconciles(s, work, env);
  }

  lemma FrontListing(s: Store, work: seq<Entry>)
    requires Listing(s, work) && work != []
    ensures Listing(s, work[..|work| - 1]) && EntryOk(s, work[|work| - 1])
    ensures forall d :: d in work[..|work| - 1] ==> d in work && d.path != work[|work| - 1].path
    ensures work[|work| - 1] in work && work[|work| - 1].path !in Paths(work[..|work| - 1])
  {
  }

  // ---- Which files are refused, and which entries have nothing to say ----

  /** No row can take the file over, and its folder does not know its message. */
  ghost predicate Unplaced(s: Store, f: nat, p: Path, mid: Mid)
    requires p.Inside?
  {
    && AtPath(s, p.mailbox, p) == {}
    && forall id :: id in WithMid(s, p.mailbox, mid) ==> !Usable(s, p, id) && s.rows[id].folder != Some(f)
  }

  /** The file is gone, cannot be read, or is a new message that the quota does not allow. */
  ghost predicate Rejects(s: Store, e: Entry, env: Env)
    requires e.path.Inside?
  {
    || e.path !in s.files || e.path in env.unreadable
    || (e.path in env.overQuota && Unplaced(s, e.folder, e.path, s.files[e.path]))
  }

  /** The file is refused, or its row says already what it says. */
  ghost predicate Silent(s: Store, e: Entry, env: Env) {
    EntryOk(s, e) && (Rejects(s, e, env) || Indexed(s, e.folder, e.path))
  }

  ghost predicate AllSilent(s: Store, work: seq<Entry>, env: Env) {
    forall e :: e in work ==> Silent(s, e, env)
  }

  /** `syncMaildirFile` fails exactly on the files it must refuse, which the state before the call
      shows. */
  lemma FailsExactlyWhen(s: Store, e: Entry, env: Env)
    requires Sane(s) && EntryOk(s, e)
    ensures SyncFile(s, e.folder, e.path, env).1 == Failed <==> Rejects(s, e, env)
  {
    if e.path in s.files && e.path !in env.unreadable {
      var s1, mid := Numbered(s, e.path), FileMid(s, e.path);
      var flags := FlagsOnDisk(s, e.folder, e.path);
      NumberedUnplaced(s, e.folder, e.path);
      ParsedFailsExactlyWhen(s1, e.folder, e.path, mid, flags, env);
      assert SyncFile(s, e.folder, e.path, env) == SyncParsed(s1, e.folder, e.path, mid, flags, env);
    }
  }

  lemma ParsedFailsExactlyWhen(s: Store, f: nat, p: Path, mid: Mid, flags: (bool, bool), env: Env)
    requires f in s.folders && p.Inside? && p.mailbox == s.folders[f].mailbox
    ensures SyncParsed(s, f, p, mid, flags, env).1 == Failed <==> p in env.overQuota && Unplaced(s, f, p, mid)
  {
    HandledExactlyWhen(s, f, p, mid, flags, env.now);
    UnsettledExactlyWhen(s, f, p, mid);
    UnplacedExactlyWhen(s, f, p, mid);
  }

  lemma HandledExactlyWhen(s: Store, f: nat, p: Path, mid: Mid, flags: (bool, bool), now: int)
    requires f in s.folders && p.Inside? && p.mailbox == s.folders[f].mailbox
    ensures SyncExisting(s, f, p, mid, flags, now).1 <==> Settled(s, f, p, mid).Some?
  {
  }

  lemma UnsettledExactlyWhen(s: Store, f: nat, p: Path, mid: Mid)
    requires f in s.folders && p.Inside? && p.mailbox == s.folders[f].mailbox
    ensures Settled(s, f, p, mid).None?
            <==> AtPath(s, p.mailbox, p) == {} && forall id :: id in WithMid(s, p.mailbox, mid) ==> !Usable(s, p, id)
  {
    var ids := Candidates(s, f, mid);
    if FirstUsable(s, p, ids).Some? { assert FirstUsable(s, p, ids).value in WithMid(s, p.mailbox, mid); }
  }

  lemma UnplacedExactlyWhen(s: Store, f: nat, p: Path, mid: Mid)
    requires f in s.folders && p.Inside? && p.mailbox == s.folders[f].mailbox
    ensures Unplaced(s, f, p, mid)
            <==> !Known(s, f, p, mid) && AtPath(s, p.mailbox, p) == {}
                 && forall id :: id in WithMid(s, p.mailbox, mid) ==> !Usable(s, p, id)
  {
  }

  /** No row has a message id that is only now made up. */
  lemma NumberedUnplaced(s: Store, f: nat, p: Path)
    requires Sane(s) && p.Inside? && p in s.files
    ensures Unplaced(Numbered(s, p), f, p, FileMid(s, p)) <==> Unplaced(s, f, p, s.files[p])
  {
    var s1 := Numbered(s, p);
    assert AtPath(s1, p.mailbox, p) == AtPath(s, p.mailbox, p);
    assert WithMid(s1, p.mailbox, FileMid(s, p)) == WithMid(s, p.mailbox, s.files[p]);
  }

  lemma UnchangedRejects(s: Store, t: Store, e: Entry, env: Env)
    requires Unchanged(s, t) && EntryOk(s, e)
    ensures Rejects(s, e, env) <==> Rejects(t, e, env)
  {
    assert AtPath(s, e.path.mailbox, e.path) == AtPath(t, e.path.mailbox, e.path);
    if e.path in s.files {
      assert WithMid(s, e.path.mailbox, s.files[e.path]) == WithMid(t, e.path.mailbox, s.files[e.path]);
    }
  }

  lemma UnchangedSilent(s: Store, t: Store, e: Entry, env: Env)
    requires Unchanged(s, t) && Silent(s, e, env)
    ensures Silent(t, e, env)
  {
    UnchangedRejects(s, t, e, env);
    if Indexed(s, e.folder, e.path) { UnchangedIndexed(s, t, e); }
  }

  /** A pass over entries that have nothing to say changes nothing. */
  lemma {:induction false} SilentPass(s: Store, work: seq<Entry>, env: Env)
    requires Sane(s) && Listing(s, work) && AllSilent(s, work, env)
    ensures Quiet(s, ScanAll(s, work, env).store) && ScanAll(s, work, env).imported == 0
    decreases |work|
  {
    if work != [] {
      var n := |work| - 1;
      var front, e := work[..n], work[n];
      FrontListing(s, work);
      SilentPass(s, front, env);
      PassBasics(s, front, env);
      var b := ScanAll(s, front, env);
      UnchangedSilent(s, b.store, e, env);
      SilentEntry(b, e, env);
      QuietThen(s, b.store, ScanAll(s, work, env).store);
    }
  }

  lemma SilentEntry(b: Pass, e: Entry, env: Env)
    requires Sane(b.store) && Silent(b.store, e, env)
    ensures Quiet(b.store, ScanEntry(b, e, env).store) && ScanEntry(b, e, env).imported == b.imported
  {
    FailsExactlyWhen(b.store, e, env);
    if SyncFile(b.store, e.folder, e.path, env).1 == Failed {
      FailedIsQuiet(b.store, e.folder, e.path, env);
    } else {
      RescanFile(b.store, e.folder, e.path, env);
    }
  }

  lemma FailedEarlier(b: Pass, r: Pass, e: Entry, d: Entry)
    requires d.path != e.path && r.failed <= b.failed + {e.path}
    ensures d.path in r.failed ==> d.path in b.failed
  {
  }

  /** When all files that do not fail have had their row from the start, those that fail are those
      that had to be refused from the start. */
  lemma {:induction false} FailuresWereSilent(s: Store, work: seq<Entry>, env: Env)
    requires Sane(s) && Listing(s, work)
    requires forall e :: e in work ==> e.path in ScanAll(s, work, env).failed || Indexed(s, e.folder, e.path)
    ensures AllSilent(s, work, env)
    decreases |work|
  {
    if work != [] {
      var n := |work| - 1;
      var front, e := work[..n], work[n];
      FrontListing(s, work);
      PassBasics(s, front, env);
      var b, r := ScanAll(s, front, env), ScanAll(s, work, env);
      forall d | d in front ensures d.path in b.failed || Indexed(s, d.folder, d.path) {
        FailedEarlier(b, r, e, d);
      }
      FailuresWereSilent(s, front, env);
      SilentPass(s, front, env);
      FailureWasSilent(s, b, e, env);
      assert forall d :: d in work ==> d in front || d == e;
    }
  }

  lemma FailureWasSilent(s: Store, b: Pass, e: Entry, env: Env)
    requires EntryOk(s, e) && Unchanged(s, b.store) && Sane(b.store) && EntryOk(b.store, e) && e.path !in b.failed
    requires e.path in ScanEntry(b, e, env).failed || Indexed(s, e.folder, e.path)
    ensures Silent(s, e, env)
  {
    if !Indexed(s, e.folder, e.path) {
      FailsExactlyWhen(b.store, e, env);
      UnchangedRejects(s, b.store, e, env);
    }
  }

  /** A pass over a consistent store, whatever is on disk, changes nothing but the time its rows
      were last looked at exactly when each of its files has to be refused or has its row already.
      Both can be seen before the pass. */
  lemma PassIsQuietExactlyWhen(s: Store, work: seq<Entry>, env: Env)
    requires Inv(s) && UnderRoot(s) && MidsFresh(s) && Listing(s, work)
    ensures Unchanged(s, ScanAll(s, work, env).store)
            <==> forall e :: e in work ==> Rejects(s, e, env) || Indexed(s, e.folder, e.path)
  {
    ScanReconciles(s, work, env);
    var r := ScanAll(s, work, env);
    if forall e :: e in work ==> Rejects(s, e, env) || Indexed(s, e.folder, e.path) {
      SilentPass(s, work, env);
    }
    if Unchanged(s, r.store) {
      forall e | e in work ensures e.path in r.failed || Indexed(s, e.folder, e.path) {
        assert EntryDone(s, r, e);
        if e.path !in r.failed { IndexedBefore(s, r.store, e); }
      }
      FailuresWereSilent(s, work, env);
      assert forall e :: e in work ==> Silent(s, e, env);
    }
  }

  lemma IndexedBefore(s: Store, t: Store, e: Entry)
    requires Unchanged(s, t) && EntryOk(s, e) && EntryOk(t, e) && Indexed(t, e.folder, e.path)
    ensures Indexed(s, e.folder, e.path)
  {
    var id :| Indexes(t, id, e.folder, e.path);
    assert Indexes(s, id, e.folder, e.path);
  }

  /** The second look at what a pass has looked at changes nothing exactly when every file that failed
      the first time has to be refused again or has its row. No other file is imported, removed or
      re-filed. */
  lemma SecondPassChangesNothing(s: Store, work: seq<Entry>, env: Env, again: seq<Entry>, env2: Env)
    requires Inv(s) && UnderRoot(s) && MidsFresh(s) && Listing(s, work)
    requires Listing(ScanAll(s, work, env).store, again) && forall e :: e in again ==> e in work
    ensures var first := ScanAll(s, work, env);
            var second := ScanAll(first.store, again, env2);
            Unchanged(first.store, second.store)
            <==> forall e :: e in again && e.path in first.failed ==>
                   Rejects(first.store, e, env2) || Indexed(first.store, e.folder, e.path)
    ensures var first := ScanAll(s, work, env);
            var second := ScanAll(first.store, again, env2);
            Unchanged(first.store, second.store) ==> second.imported == 0
  {
    ScanReconciles(s, work, env);
    var first := ScanAll(s, work, env);
    PassIsQuietExactlyWhen(first.store, again, env2);
    forall e | e in again && e.path !in first.failed
      ensures Rejects(first.store, e, env2) || Indexed(first.store, e.folder, e.path)
    {
      assert EntryDone(s, first, e);
    }
    if Unchanged(first.store, ScanAll(first.store, again, env2).store) { SilentPass(first.store, again, env2); }
  }

  /** Whatever fails and whatever is imported, the second look removes only files that failed the
      first time, and the message of each has another file with a row. */
  lemma SecondPassRemovesOnlyFailures(s: Store, work: seq<Entry>, env: Env, again: seq<Entry>, env2: Env, p: Path)
    requires Inv(s) && UnderRoot(s) && MidsFresh(s) && Listing(s, work)
    requires Listing(ScanAll(s, work, env).store, again) && forall e :: e in again ==> e in work
    requires p in ScanAll(s, work, env).store.files
    requires p !in ScanAll(ScanAll(s, work, env).store, again, env2).store.files
    ensures var first := ScanAll(s, work, env);
            p in first.failed && p.Inside? && p !in env2.unreadable
            && LivesElsewhere(ScanAll(first.store, again, env2).store, p, first.store.files[p])
  {
    PassBasics(s, work, env);
    var first := ScanAll(s, work, env);
    var e := RemovedFile(first.store, again, env2, p);
    if p !in first.failed {
      UnfailedIsIndexed(s, work, env, e);
      var id :| Indexes(first.store, id, e.folder, p);
      PassBasics(first.store, again, env2);
      RowStillStands(first.store, ScanAll(first.store, again, env2).store, id, p);
    }
    if p in env2.unreadable { UnreadableStays(first.store, again, env2, p); }
  }

  lemma RemovedFile(s: Store, work: seq<Entry>, env: Env, p: Path) returns (e: Entry)
    requires Sane(s) && Listing(s, work) && p in s.files && p !in ScanAll(s, work, env).store.files
    ensures e in work && e.path == p && LivesElsewhere(ScanAll(s, work, env).store, p, s.files[p])
  {
    ScanReconciles(s, work, env);
    assert p in Paths(work);
    e :| e in work && e.path == p;
    assert EntryDone(s, ScanAll(s, work, env), e);
  }

  lemma UnfailedIsIndexed(s: Store, work: seq<Entry>, env: Env, e: Entry)
    requires Sane(s) && Listing(s, work) && e in work
    requires e.path !in ScanAll(s, work, env).failed && e.path in ScanAll(s, work, env).store.files
    ensures EntryOk(ScanAll(s, work, env).store, e) && Indexed(ScanAll(s, work, env).store, e.folder, e.path)
  {
    ScanReconciles(s, work, env);
    assert EntryDone(s, ScanAll(s, work, env), e);
  }

  lemma {:induction false} UnreadableStays(s: Store, work: seq<Entry>, env: Env, p: Path)
    requires Sane(s) && Listing(s, work) && p in s.files && p in env.unreadable
    ensures p in ScanAll(s, work, env).store.files
    decreases |work|
  {
    if work != [] {
      var n := |work| - 1;
      FrontListing(s, work);
      UnreadableStays(s, work[..n], env, p);
      PassBasics(s, work[..n], env);
      StepKeepsUnreadable(ScanAll(s, work[..n], env).store, work[n], env, p);
    }
  }

  lemma StepKeepsUnreadable(s: Store, e: Entry, env: Env, p: Path)
    requires Sane(s) && EntryOk(s, e) && p in s.files && p in env.unreadable
    ensures p in SyncFile(s, e.folder, e.path, env).0.files
  {
    if e.path != p {
      SyncFileStep(s, e.folder, e.path, env);
      var (t, outcome) := SyncFile(s, e.folder, e.path, env);
      FileStepMeans(s, t, outcome, e.folder, e.path);
    }
  }

  /** In particular, and with no condition on the files that failed: a pass over files that did not
      fail before changes nothing and fails on none that can be read. */
  lemma UnfailedFilesStay(s: Store, work: seq<Entry>, env: Env, again: seq<Entry>, env2: Env)
    requires Inv(s) && UnderRoot(s) && MidsFresh(s) && Listing(s, work)
    requires Listing(ScanAll(s, work, env).store, again)
    requires forall e :: e in again ==> e in work && e.path !in ScanAll(s, work, env).failed
    ensures var t := ScanAll(s, work, env).store;
            var r := ScanAll(t, again, env2);
            && Unchanged(t, r.store) && r.imported == 0
            && forall e :: e in again && e.path in t.files && e.path !in env2.unreadable ==> e.path !in r.failed
  {
    SecondPassChangesNothing(s, work, env, again, env2);
    ScanReconciles(s, work, env);
    var first := ScanAll(s, work, env);
    forall e | e in again && e.path in first.store.files && e.path !in env2.unreadable
      ensures e.path !in ScanAll(first.store, again, env2).failed
    {
      assert EntryDone(s, first, e);
      var id :| Indexes(first.store, id, e.folder, e.path);
      RowedFileHandled(first.store, again, env2, id, e);
    }
  }

  /** A readable file that some row carries is never an error. */
  lemma {:induction false} RowedFileHandled(s: Store, work: seq<Entry>, env: Env, id: nat, e: Entry)
    requires Inv(s) && UnderRoot(s) && MidsFresh(s) && Listing(s, work) && e in work
    requires Stands(s, id, e.path) && e.path in s.files && e.path !in env.unreadable
    ensures e.path !in ScanAll(s, work, env).failed
    decreases |work|
  {
    var n := |work| - 1;
    var front, last := work[..n], work[n];
    FrontListing(s, work);
    PassBasics(s, front, env);
    if e in front {
      RowedFileHandled(s, front, env, id, e);
    } else {
      var b := ScanAll(s, front, env);
      RowStillStands(s, b.store, id, e.path);
      RowedIsHandled(b.store, id, e.folder, e.path, env);
    }
  }

  lemma RowStillStands(s: Store, t: Store, id: nat, p: Path)
    requires LiveKept(s, t) && Stands(s, id, p) && p in s.files
    ensures Stands(t, id, p) && p in t.files
  {
    assert Live(s, id);
  }

  lemma RowedIsHandled(s: Store, id: nat, f: nat, p: Path, env: Env)
    requires Scannable(s, f, p) && Stands(s, id, p) && p in s.files && p !in env.unreadable
    ensures SyncFile(s, f, p, env).1 == Handled
  {
    var s1 := Numbered(s, p);
    assert id in AtPath(s1, p.mailbox, p);
  }

  /** A row of the file's mailbox that carries its path. */
  predicate Stands(s: Store, id: nat, p: Path) {
    id in s.rows && p.Inside? && s.rows[id].mailbox == Some(p.mailbox) && s.rows[id].rawPath == Some(p)
  }
}
