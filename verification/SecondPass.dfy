/** A second whole pass: scan, backfill and cleanup together change nothing exactly when no file has
    something new to say, no row waits for a file, and no row whose file is gone is old enough. */
module SecondPass {
  import opened StoreModel
  import opened StoreInvariants
  import opened StoreEffects
  import opened MaildirScan
  import opened Reconcile
  import opened ReconcilePass
  import opened Rescan
  import opened WholePass
  import N = MaildirNames
  import O = OrderBy

  // ---- Any pass ----

  /** No row lost its path, and new rows have one. */
  ghost predicate PathsStay(s: Store, t: Store) {
    forall id :: id in t.rows && t.rows[id].rawPath.None? ==> id in s.rows && s.rows[id].rawPath.None?
  }

  lemma FilePathsStay(s: Store, t: Store, outcome: Outcome, f: nat, p: Path)
    requires Scannable(s, f, p) && FileStep(s, t, outcome, f, p)
    ensures PathsStay(s, t)
  {
    if outcome != Failed && p in t.files {
      var id :| Takes(s, t, id, f, p, FlagsOnDisk(s, f, p), FileMid(s, p));
      TakenPathsStay(s, t, id, f, p, FlagsOnDisk(s, f, p), FileMid(s, p));
    } else {
      assert t.rows == s.rows;
    }
  }

  lemma TakenPathsStay(s: Store, t: Store, id: nat, f: nat, p: Path, flags: (bool, bool), mid: Mid)
    requires Takes(s, t, id, f, p, flags, mid)
    ensures PathsStay(s, t)
  {
  }

  lemma {:induction false} ScanPathsStay(s: Store, work: seq<Entry>, env: Env)
    requires Sane(s) && Listing(s, work)
    ensures PathsStay(s, ScanAll(s, work, env).store)
    decreases |work|
  {
    if work != [] {
      var n := |work| - 1;
      var front, e := work[..n], work[n];
      FrontListing(s, work);
      PassBasics(s, front, env);
      ScanPathsStay(s, front, env);
      var b := ScanAll(s, front, env);
      SyncFileStep(b.store, e.folder, e.path, env);
      var (t, outcome) := SyncFile(b.store, e.folder, e.path, env);
      FilePathsStay(b.store, t, outcome, e.folder, e.path);
    }
  }

  lemma BatchEmptyExactlyWhen(s: Store)
    ensures BackfillBatch(s) == [] <==> Fileless(s) == {}
  {
    var all := O.SortedIds(Fileless(s), CreatedAt(s));
    if Fileless(s) != {} {
      var id :| id in Fileless(s);
      assert id in all;
    }
  }

  /** No row whose file is gone has crossed the cutoff. */
  ghost predicate NoOldOrphan(s: Store, cutoff: int) {
    forall id :: Orphan(s, id) ==> s.rows[id].updatedAt >= cutoff
  }

  lemma NothingToClean(s: Store, cutoff: int)
    requires s.rooted && UnderRoot(s) && NoOldOrphan(s, cutoff)
    ensures CleanupMissing(s, cutoff) == s
  {
    MissingAreOldOrphans(s, cutoff);
    assert Missing(s, cutoff) == {};
  }

  lemma QuietOrphans(s: Store, t: Store, cutoff: int)
    requires Quiet(s, t)
    ensures NoOldOrphan(s, cutoff) <==> NoOldOrphan(t, cutoff)
    ensures Fileless(s) == {} <==> Fileless(t) == {}
  {
    forall id ensures Orphan(s, id) <==> Orphan(t, id) {
    }
    forall id | Orphan(s, id) ensures t.rows[id] == s.rows[id] {
    }
    assert Fileless(s) == Fileless(t);
  }

  /** Scan, backfill and cleanup over any consistent store change nothing but the time its rows were
      last looked at exactly when every file has to be refused or has its row already, no row is
      without a file, and no row whose file is gone is older than the cutoff. All of it can be seen
      before the pass. */
  lemma FullPassQuietExactlyWhen(s: Store, work: seq<Entry>, env: Env, names: map<nat, string>, cutoff: int)
    requires Ready(s, work, env, names)
    ensures Unchanged(s, FullPass(s, work, env, names, cutoff))
            <==> AllSilent(s, work, env) && Fileless(s) == {} && NoOldOrphan(s, cutoff)
  {
    var t, u := ScanAll(s, work, env).store, FullPass(s, work, env, names, cutoff);
    PassBasics(s, work, env);
    BackfilledState(s, work, env, names);
    if Unchanged(s, u) {
      QuietNeedsNoBatch(s, work, env, names, cutoff);
      QuietNeedsSilent(s, work, env, cutoff);
      SilentPass(s, work, env);
      QuietOrphans(s, t, cutoff);
      QuietNeedsYoung(s, t, cutoff);
    }
    if AllSilent(s, work, env) && Fileless(s) == {} && NoOldOrphan(s, cutoff) {
      SilentPass(s, work, env);
      QuietOrphans(s, t, cutoff);
      BatchEmptyExactlyWhen(t);
      NothingToClean(t, cutoff);
    }
  }

  lemma QuietNeedsNoBatch(s: Store, work: seq<Entry>, env: Env, names: map<nat, string>, cutoff: int)
    requires Ready(s, work, env, names) && Unchanged(s, FullPass(s, work, env, names, cutoff))
    ensures var t := ScanAll(s, work, env).store; Fileless(t) == {} && Backfilled(s, work, env, names) == t
  {
    BackfilledState(s, work, env, names);
    ScanPathsStay(s, work, env);
    var t, b := ScanAll(s, work, env).store, Backfilled(s, work, env, names);
    BatchEmptyExactlyWhen(t);
    if BackfillBatch(t) != [] {
      var id := BackfillBatch(t)[0];
      assert id in BackfillBatch(t);
      CleanupRemoves(b, cutoff);
      FilledSurvives(s, t, b, CleanupMissing(b, cutoff), id, names[id], cutoff);
    }
  }

  lemma FilledSurvives(s: Store, t: Store, b: Store, u: Store, id: nat, name: string, cutoff: int)
    requires IsFileless(t, id) && Writable(t, id) && Filled(t, b, id, name) && Cleaned(b, u, cutoff) && PathsStay(s, t)
    ensures !Unchanged(s, u)
  {
    assert Live(b, id);
    assert id in u.rows && u.rows[id].rawPath.Some?;
  }

  lemma QuietNeedsSilent(s: Store, work: seq<Entry>, env: Env, cutoff: int)
    requires Sane(s) && s.rooted && Listing(s, work)
    requires Unchanged(s, CleanupMissing(ScanAll(s, work, env).store, cutoff))
    ensures AllSilent(s, work, env)
  {
    ScanReconciles(s, work, env);
    var r := ScanAll(s, work, env);
    CleanupRemoves(r.store, cutoff);
    forall e | e in work ensures e.path in r.failed || Indexed(s, e.folder, e.path) {
      assert EntryDone(s, r, e);
      if e.path !in r.failed { IndexedThroughout(s, r.store, CleanupMissing(r.store, cutoff), e, cutoff); }
    }
    FailuresWereSilent(s, work, env);
  }

  lemma IndexedThroughout(s: Store, t: Store, u: Store, e: Entry, cutoff: int)
    requires EntryOk(s, e) && EntryOk(t, e) && e.path in s.files && (e.path in t.files ==> Indexed(t, e.folder, e.path))
    requires Cleaned(t, u, cutoff) && Unchanged(s, u)
    ensures Indexed(s, e.folder, e.path)
  {
    var id :| Indexes(t, id, e.folder, e.path);
    assert Live(t, id);
    assert Indexes(u, id, e.folder, e.path);
    assert Indexes(s, id, e.folder, e.path);
  }

  lemma QuietNeedsYoung(s: Store, t: Store, cutoff: int)
    requires Unchanged(s, t) && t.rooted && UnderRoot(t) && Unchanged(s, CleanupMissing(t, cutoff))
    ensures NoOldOrphan(t, cutoff)
  {
    CleanupRemoves(t, cutoff);
  }

  // ---- The pass after a pass ----

  /** The name of the file the backfill writes can tell the row's flags. */
  predicate Namable(s: Store, id: nat)
    requires IsFileless(s, id) && Writable(s, id)
  {
    IsInbox(s.folders[s.rows[id].folder.value].name) || s.rows[id].read || s.rows[id].starred
  }

  function BackfilledEntry(s: Store, id: nat, name: string): Entry
    requires IsFileless(s, id) && Writable(s, id)
  {
    Entry(s.rows[id].folder.value, BackfilledPath(s, id, name))
  }

  /** It is an entry of its row's folder: the listing of that folder's directory finds the file. */
  lemma BackfilledIsListed(s: Store, id: nat, name: string)
    requires Inv(s) && IsFileless(s, id) && Writable(s, id) && N.AllSafe(name)
    ensures EntryOk(s, BackfilledEntry(s, id, name))
  {
    var f := s.rows[id].folder.value;
    NewFileLies(s, s.rows[id], f, name);
    DirRuleExactlyWhen(s.folders[f].name, BackfilledPath(s, id, name).dir);
    assert RowOk(s, id, s.rows[id]);
  }

  /** What the second pass is shown: files the first one was shown, and all that its backfill wrote,
      which can be read. The names made up for those are none of the files shown before. */
  ghost predicate Relisted(t: Store, work: seq<Entry>, ids: seq<nat>, names: map<nat, string>, again: seq<Entry>,
        env2: Env) {
    && Batch(t, ids) && (forall id :: id in ids ==> id in names)
    && (forall e :: e in again ==> e in work || exists id :: id in ids && e == BackfilledEntry(t, id, names[id]))
    && (forall id :: id in ids ==>
          var e := BackfilledEntry(t, id, names[id]);
          e in again && e.path !in env2.unreadable && forall d :: d in work ==> d.path != e.path)
  }

  ghost predicate AllNamable(t: Store, ids: seq<nat>)
    requires Batch(t, ids)
  {
    forall id :: id in ids ==> Namable(t, id)
  }

  /** Every file that failed the first time has to be refused again or has its row. */
  ghost predicate FailuresSilent(u: Store, again: seq<Entry>, failed: set<Path>, env2: Env) {
    forall e :: e in again && e.path in failed ==> Silent(u, e, env2)
  }

  /** A second whole pass changes nothing but the time its rows were last looked at exactly when
      every file that failed the first time has to be refused again or has its row; every message
      the first pass wrote a file for is in Inbox, read or starred; no message still waits for a
      file; and no row whose file is gone has crossed the second cutoff. */
  lemma SecondFullPass(s: Store, work: seq<Entry>, env: Env, names: map<nat, string>, cutoff: int,
                       again: seq<Entry>, env2: Env, names2: map<nat, string>, cutoff2: int)
    requires Ready(s, work, env, names)
    requires Ready(FullPass(s, work, env, names, cutoff), again, env2, names2)
    requires var t := ScanAll(s, work, env).store; Relisted(t, work, BackfillBatch(t), names, again, env2)
    ensures var first := ScanAll(s, work, env);
            var u := FullPass(s, work, env, names, cutoff);
            Unchanged(u, FullPass(u, again, env2, names2, cutoff2))
            <==> FailuresSilent(u, again, first.failed, env2)
                 && AllNamable(first.store, BackfillBatch(first.store))
                 && Fileless(u) == {} && NoOldOrphan(u, cutoff2)
  {
    var u := FullPass(s, work, env, names, cutoff);
    FullPassQuietExactlyWhen(u, again, env2, names2, cutoff2);
    EntriesSilentExactlyWhen(s, work, env, names, cutoff, again, env2);
  }

  lemma EntriesSilentExactlyWhen(s: Store, work: seq<Entry>, env: Env, names: map<nat, string>, cutoff: int,
        again: seq<Entry>, env2: Env)
    requires Ready(s, work, env, names)
    requires Sane(FullPass(s, work, env, names, cutoff)) && Listing(FullPass(s, work, env, names, cutoff), again)
    requires var t := ScanAll(s, work, env).store; Relisted(t, work, BackfillBatch(t), names, again, env2)
    ensures var first := ScanAll(s, work, env);
            var u := FullPass(s, work, env, names, cutoff);
            AllSilent(u, again, env2)
            <==> FailuresSilent(u, again, first.failed, env2) && AllNamable(first.store, BackfillBatch(first.store))
  {
    var first := ScanAll(s, work, env);
    var t, b, u := first.store, Backfilled(s, work, env, names), FullPass(s, work, env, names, cutoff);
    var ids := BackfillBatch(t);
    BackfilledState(s, work, env, names);
    CleanupRemoves(b, cutoff);
    BatchSilent(t, b, u, ids, names, cutoff, work, again, env2);
    UnfailedSilent(s, work, env, b, u, ids, names, again, cutoff, env2);
    ByKindOfEntry(t, u, work, ids, names, again, first.failed, env2);
  }

  lemma BatchSilent(t: Store, b: Store, u: Store, ids: seq<nat>, names: map<nat, string>, cutoff: int,
        work: seq<Entry>, again: seq<Entry>, env2: Env)
    requires Inv(t) && Relisted(t, work, ids, names, again, env2) && RowsFilled(t, b, ids, names) && SameFolders(t, b)
    requires Cleaned(b, u, cutoff) && Sane(u) && forall id :: id in ids ==> N.AllSafe(names[id])
    ensures forall id :: id in ids ==> (Silent(u, BackfilledEntry(t, id, names[id]), env2) <==> Namable(t, id))
  {
    forall id | id in ids ensures Silent(u, BackfilledEntry(t, id, names[id]), env2) <==> Namable(t, id) {
      BackfilledSilent(t, b, u, id, names[id], cutoff, env2);
    }
  }

  lemma UnfailedSilent(s: Store, work: seq<Entry>, env: Env, b: Store, u: Store, ids: seq<nat>,
        names: map<nat, string>, again: seq<Entry>, cutoff: int, env2: Env)
    requires Sane(s) && Listing(s, work) && forall e :: e in again ==> EntryOk(u, e)
    requires var t := ScanAll(s, work, env).store;
             Relisted(t, work, ids, names, again, env2) && RowsFilled(t, b, ids, names) && SameFolders(t, b)
    requires Cleaned(b, u, cutoff)
    ensures forall e :: e in again && e in work && e.path !in ScanAll(s, work, env).failed ==> Silent(u, e, env2)
  {
    forall e | e in again && e in work && e.path !in ScanAll(s, work, env).failed ensures Silent(u, e, env2) {
      var t := ScanAll(s, work, env).store;
      forall id | id in ids ensures BackfilledPath(t, id, names[id]) != e.path {
        assert BackfilledEntry(t, id, names[id]).path != e.path;
      }
      UnfailedStaysSilent(s, work, env, b, u, ids, names, e, cutoff, env2);
    }
  }

  /** The entries of the second pass, by kind: failed before, backfilled, and the others. */
  lemma ByKindOfEntry(t: Store, u: Store, work: seq<Entry>, ids: seq<nat>, names: map<nat, string>, again: seq<Entry>,
        failed: set<Path>, env2: Env)
    requires Relisted(t, work, ids, names, again, env2)
    requires forall id :: id in ids ==> (Silent(u, BackfilledEntry(t, id, names[id]), env2) <==> Namable(t, id))
    requires forall e :: e in again && e in work && e.path !in failed ==> Silent(u, e, env2)
    ensures AllSilent(u, again, env2) <==> FailuresSilent(u, again, failed, env2) && AllNamable(t, ids)
  {
  }

  lemma UnfailedStaysSilent(s: Store, work: seq<Entry>, env: Env, b: Store, u: Store, ids: seq<nat>,
        names: map<nat, string>, e: Entry, cutoff: int, env2: Env)
    requires Sane(s) && Listing(s, work) && e in work && e.path !in ScanAll(s, work, env).failed && EntryOk(u, e)
    requires var t := ScanAll(s, work, env).store;
             && Batch(t, ids) && (forall id :: id in ids ==> id in names) && RowsFilled(t, b, ids, names)
             && SameFolders(t, b) && forall id :: id in ids ==> BackfilledPath(t, id, names[id]) != e.path
    requires Cleaned(b, u, cutoff)
    ensures Silent(u, e, env2)
  {
    ScanReconciles(s, work, env);
    assert EntryDone(s, ScanAll(s, work, env), e);
    if e.path in u.files { IndexedStays(ScanAll(s, work, env).store, b, u, ids, names, e, cutoff); }
  }

  /** A file the first pass settled and the second one finds has kept its row. */
  lemma IndexedStays(t: Store, b: Store, u: Store, ids: seq<nat>, names: map<nat, string>, e: Entry, cutoff: int)
    requires Batch(t, ids) && (forall id :: id in ids ==> id in names) && RowsFilled(t, b, ids, names)
    requires SameFolders(t, b)
    requires Cleaned(b, u, cutoff) && EntryOk(t, e) && EntryOk(u, e) && e.path in u.files
    requires e.path in t.files ==> Indexed(t, e.folder, e.path)
    requires forall id :: id in ids ==> BackfilledPath(t, id, names[id]) != e.path
    ensures Indexed(u, e.folder, e.path)
  {
    assert e.path in t.files;
    var id :| Indexes(t, id, e.folder, e.path);
    assert id !in ids && Live(b, id);
    assert Indexes(u, id, e.folder, e.path);
  }

  /** A file the backfill wrote has its row, and says what the row says exactly when it is namable. */
  lemma BackfilledSilent(t: Store, b: Store, u: Store, id: nat, name: string, cutoff: int, env2: Env)
    requires Inv(t) && IsFileless(t, id) && Writable(t, id) && Filled(t, b, id, name) && SameFolders(t, b)
    requires Cleaned(b, u, cutoff) && N.AllSafe(name) && Sane(u)
    requires BackfilledPath(t, id, name) !in env2.unreadable
    ensures Silent(u, BackfilledEntry(t, id, name), env2) <==> Namable(t, id)
  {
    var e := BackfilledEntry(t, id, name);
    assert RowOk(t, id, t.rows[id]);
    assert Live(b, id);
    assert Stands(u, id, e.path) && e.path in u.files;
    assert id in AtPath(u, e.path.mailbox, e.path);
    FlagsTellExactlyWhen(t, u, id, name);
    assert Indexed(u, e.folder, e.path) <==> Indexes(u, id, e.folder, e.path);
  }

  lemma FlagsTellExactlyWhen(t: Store, u: Store, id: nat, name: string)
    requires IsFileless(t, id) && Writable(t, id) && SameFolders(t, u) && N.AllSafe(name)
    ensures var onDisk := FlagsOnDisk(u, t.rows[id].folder.value, BackfilledPath(t, id, name));
            onDisk == (t.rows[id].read, t.rows[id].starred) <==> Namable(t, id)
  {
    N.SafeNamesHaveNoFlags(name);
    N.RoundTripExactly(name, t.rows[id].read, t.rows[id].starred, IsInbox(t.folders[t.rows[id].folder.value].name));
  }
}
