/** The whole pass: file loops, backfill of rows without a file, cleanup of rows whose file is gone.
    After it the files it could read and the rows with a path correspond one to one; and a second
    whole pass changes something only for reasons a caller can see beforehand. */
module WholePass {
  import opened Common
  import opened StoreModel
  import opened StoreInvariants
  import opened StoreSteps
  import opened StoreEffects
  import opened MaildirScan
  import opened Reconcile
  import opened ReconcilePass
  import opened Rescan
  import N = MaildirNames
  import O = OrderBy

  // ---- Files the server writes for rows without one ----

  predicate IsFileless(s: Store, id: nat) {
    id in s.rows && s.rows[id].mailbox.Some? && s.rows[id].folder.Some? && s.rows[id].rawPath.None?
  }

  /** The file is written and the row points to it; every other row and file is as before. */
  lemma RewriteShape(s: Store, id: nat, name: string, now: int)
    requires Inv(s) && s.rooted && IsFileless(s, id) && NameFresh(s, name)
    requires s.rows[id].folder.value in s.folders
    ensures var t, path := Rewrite(s, id, name, now), NewFilePath(s, s.rows[id], s.rows[id].folder.value, name);
            && t.files == s.files[path := s.rows[id].mid] && path !in s.files && t.nextId == s.nextId
            && (forall k :: k in s.rows && k != id ==> t.rows[k] == s.rows[k])
            && t.rows[id] == s.rows[id].(rawPath := Some(path), modseq := t.rows[id].modseq, updatedAt := now)
  {
    var row := s.rows[id];
    var path := NewFilePath(s, row, row.folder.value, name);
    NewPathIsFresh(s, row, row.folder.value, name);
    RewriteFile(s, id, name, now, path);
  }

  /** The next pass leaves the row of such a file alone exactly when the file's name can tell its
      flags: outside Inbox, a message that is neither read nor starred comes back as read. */
  lemma BackfilledFileRescan(s: Store, id: nat, name: string, now: int, env: Env)
    requires Inv(s) && s.rooted && IsFileless(s, id) && NameFresh(s, name)
    requires s.rows[id].folder.value in s.folders
    ensures var f := s.rows[id].folder.value;
            var t, path := Rewrite(s, id, name, now), NewFilePath(s, s.rows[id], f, name);
            var namable := IsInbox(s.folders[f].name) || s.rows[id].read || s.rows[id].starred;
            path !in env.unreadable ==> (Unchanged(t, SyncFile(t, f, path, env).0) <==> namable)
  {
    var row, f := s.rows[id], s.rows[id].folder.value;
    var t, path := Rewrite(s, id, name, now), NewFilePath(s, row, f, name);
    RewriteShape(s, id, name, now);
    RewriteKeeps(s, id, name, now);
    assert RowOk(s, id, row);
    N.SafeNamesHaveNoFlags(name);
    N.RoundTripExactly(name, row.read, row.starred, IsInbox(s.folders[f].name));
    if path !in env.unreadable {
      assert id in AtPath(t, path.mailbox, path);
      if IsInbox(s.folders[f].name) || row.read || row.starred {
        assert Indexes(t, id, f, path);
        RescanFile(t, f, path, env);
      } else {
        SyncTakesFlags(t, id, f, path, env);
      }
    }
  }

  lemma SyncTakesFlags(s: Store, id: nat, f: nat, p: Path, env: Env)
    requires Scannable(s, f, p) && id in AtPath(s, p.mailbox, p) && p in s.files && p !in env.unreadable
    ensures var t := SyncFile(s, f, p, env).0;
            id in t.rows && (t.rows[id].read, t.rows[id].starred) == FlagsOnDisk(s, f, p)
  {
    var s1 := Numbered(s, p);
    NumberedScannable(s, f, p);
    AtPathIs(s, id, p);
    assert AtPath(s1, p.mailbox, p) == AtPath(s, p.mailbox, p);
    assert First(s1, AtPath(s1, p.mailbox, p)) == id;
    HandledWhenExisting(s, f, p, env);
    RefreshTakes(s1, id, f, p, FlagsOnDisk(s, f, p), env.now);
  }

  // ---- Files with rows, rows with files ----

  /** Every file outside `skip` has a row. */
  ghost predicate FilesHaveRows(s: Store, skip: set<Path>) {
    forall p :: p in s.files && p !in skip ==> exists id :: Stands(s, id, p)
  }

  ghost predicate OnlyRowOf(s: Store, id: nat, p: Path) {
    Stands(s, id, p) && forall k :: Stands(s, k, p) ==> k == id
  }

  /** Every file outside `skip` has exactly one row. */
  ghost predicate OneRowEach(s: Store, skip: set<Path>) {
    forall p :: p in s.files && p !in skip ==> exists id :: OnlyRowOf(s, id, p)
  }

  lemma RowsAreUnique(s: Store, skip: set<Path>)
    requires Inv(s) && FilesHaveRows(s, skip)
    ensures OneRowEach(s, skip)
  {
    forall p | p in s.files && p !in skip ensures exists id :: OnlyRowOf(s, id, p) {
      var id :| Stands(s, id, p);
      assert OnlyRowOf(s, id, p);
    }
  }

  predicate HasPath(s: Store, id: nat) {
    id in s.rows && s.rows[id].mailbox.Some? && s.rows[id].rawPath.Some?
  }

  ghost predicate RowsHaveFiles(s: Store) {
    forall id :: HasPath(s, id) ==> Live(s, id)
  }

  /** The files a pass could not give a row: those it failed on, and those it was not shown. */
  function Unread(s: Store, work: seq<Entry>, failed: set<Path>): set<Path> {
    failed + (s.files.Keys - Paths(work))
  }

  lemma ScanGivesFilesRows(s: Store, work: seq<Entry>, env: Env)
    requires Sane(s) && Listing(s, work)
    ensures var r := ScanAll(s, work, env); FilesHaveRows(r.store, Unread(s, work, r.failed))
  {
    ScanReconciles(s, work, env);
    var r := ScanAll(s, work, env);
    forall p | p in r.store.files && p !in Unread(s, work, r.failed) ensures exists id :: Stands(r.store, id, p) {
      assert p in Paths(work);
      var e :| e in work && e.path == p;
      assert EntryDone(s, r, e);
      var id :| Indexes(r.store, id, e.folder, p);
      assert Stands(r.store, id, p);
    }
  }

  ghost predicate NamesFresh(s: Store, ids: seq<nat>, names: map<nat, string>) {
    && (forall id :: id in ids ==> id in names && NameFresh(s, names[id]))
    && (forall i, j :: 0 <= i < j < |ids| ==> names[ids[i]] != names[ids[j]])
  }

  ghost predicate Batch(s: Store, ids: seq<nat>) {
    Distinct(ids) && forall id :: id in ids ==> IsFileless(s, id) && Writable(s, id)
  }

  /** The file the backfill writes for a row. */
  function BackfilledPath(s: Store, id: nat, name: string): Path
    requires IsFileless(s, id) && Writable(s, id)
  {
    NewFilePath(s, s.rows[id], s.rows[id].folder.value, name)
  }

  /** The row has a file of its own now and is otherwise as before. */
  predicate Filled(s: Store, t: Store, id: nat, name: string)
    requires IsFileless(s, id) && Writable(s, id)
  {
    && id in t.rows && BackfilledPath(s, id, name) in t.files
    && t.files[BackfilledPath(s, id, name)] == s.rows[id].mid
    && t.rows[id] == s.rows[id].(rawPath := Some(BackfilledPath(s, id, name)),
                                 modseq := t.rows[id].modseq, updatedAt := t.rows[id].updatedAt)
  }

  /** The listed rows have a file now, and the others and all files are as before. */
  ghost predicate RowsFilled(s: Store, t: Store, ids: seq<nat>, names: map<nat, string>)
    requires Batch(s, ids) && forall id :: id in ids ==> id in names
  {
    && t.rows.Keys == s.rows.Keys
    && (forall id :: id in s.rows && id !in ids ==> t.rows[id] == s.rows[id])
    && (forall id :: id in ids ==> Filled(s, t, id, names[id]))
    && FilesAdded(s, t, ids, names)
  }

  ghost predicate FilesAdded(s: Store, t: Store, ids: seq<nat>, names: map<nat, string>)
    requires Batch(s, ids) && forall id :: id in ids ==> id in names
  {
    && (forall p :: p in s.files ==> p in t.files && t.files[p] == s.files[p])
    && forall p :: p in t.files && p !in s.files ==> exists id :: id in ids && p == BackfilledPath(s, id, names[id])
  }

  ghost predicate BackfillState(s: Store, t: Store, ids: seq<nat>, names: map<nat, string>, skip: set<Path>)
    requires Batch(s, ids) && forall id :: id in ids ==> id in names
  {
    Sane(t) && SameFolders(s, t) && FilesHaveRows(t, skip) && RowsFilled(s, t, ids, names)
  }

  /** One row more of the batch gets its file. */
  lemma RewriteState(s: Store, t: Store, ids: seq<nat>, id: nat, names: map<nat, string>, now: int, skip: set<Path>)
    requires Inv(s) && s.rooted && Batch(s, ids + [id]) && Batch(s, ids) && id !in ids
    requires forall k :: k in ids + [id] ==> k in names
    requires BackfillState(s, t, ids, names, skip) && NameFresh(t, names[id])
    ensures IsFileless(t, id) && Writable(t, id)
    ensures BackfillState(s, Rewrite(t, id, names[id], now), ids + [id], names, skip)
  {
    assert id in ids + [id];
    StillFileless(s, t, id);
    RewriteFills(t, id, names[id], now, skip);
    OneMoreFilled(s, t, Rewrite(t, id, names[id], now), ids, id, names);
  }

  lemma StillFileless(s: Store, t: Store, id: nat)
    requires SameFolders(s, t) && id in t.rows && IsFileless(s, id) && Writable(s, id) && t.rows[id] == s.rows[id]
    ensures IsFileless(t, id) && Writable(t, id)
    ensures forall name :: BackfilledPath(t, id, name) == BackfilledPath(s, id, name)
  {
  }

  /** What one `rewriteMessageMaildir` leaves. */
  ghost predicate OneFilled(t: Store, u: Store, id: nat, name: string)
    requires IsFileless(t, id) && Writable(t, id)
  {
    && u.rows.Keys == t.rows.Keys && Filled(t, u, id, name)
    && BackfilledPath(t, id, name) !in t.files
    && u.files == t.files[BackfilledPath(t, id, name) := t.rows[id].mid]
    && forall k :: k in t.rows && k != id ==> u.rows[k] == t.rows[k]
  }

  lemma RewriteFills(t: Store, id: nat, name: string, now: int, skip: set<Path>)
    requires Sane(t) && t.rooted && FilesHaveRows(t, skip) && IsFileless(t, id) && Writable(t, id) && NameFresh(t, name)
    ensures var u := Rewrite(t, id, name, now);
            Sane(u) && SameFolders(t, u) && FilesHaveRows(u, skip) && OneFilled(t, u, id, name)
  {
    RewriteShape(t, id, name, now);
    RewriteKeeps(t, id, name, now);
    FilledIsSane(t, Rewrite(t, id, name, now), id, name);
    FilledHasRows(t, Rewrite(t, id, name, now), id, name, skip);
  }

  lemma FilledIsSane(t: Store, u: Store, id: nat, name: string)
    requires Sane(t) && Inv(u) && IsFileless(t, id) && Writable(t, id) && OneFilled(t, u, id, name)
    requires u.nextId == t.nextId && u.files == t.files[BackfilledPath(t, id, name) := t.rows[id].mid]
    ensures Sane(u)
  {
  }

  lemma FilledHasRows(t: Store, u: Store, id: nat, name: string, skip: set<Path>)
    requires Inv(t) && FilesHaveRows(t, skip) && IsFileless(t, id) && Writable(t, id) && OneFilled(t, u, id, name)
    ensures FilesHaveRows(u, skip)
  {
    assert RowOk(t, id, t.rows[id]);
    forall p | p in u.files && p !in skip ensures exists k :: Stands(u, k, p) {
      if p == BackfilledPath(t, id, name) {
        assert Stands(u, id, p);
      } else {
        var k :| Stands(t, k, p);
        assert Stands(u, k, p);
      }
    }
  }

  lemma OneMoreFilled(s: Store, t: Store, u: Store, ids: seq<nat>, id: nat, names: map<nat, string>)
    requires Batch(s, ids + [id]) && Batch(s, ids) && id !in ids && id in s.rows
    requires forall k :: k in ids + [id] ==> k in names
    requires SameFolders(s, t) && RowsFilled(s, t, ids, names) && IsFileless(t, id) && Writable(t, id)
    requires OneFilled(t, u, id, names[id])
    ensures RowsFilled(s, u, ids + [id], names)
  {
    assert id in ids + [id] && forall k :: k in ids ==> k in ids + [id];
    StillFileless(s, t, id);
    assert forall p :: p in t.files ==> p in u.files && u.files[p] == t.files[p];
    forall k | k in ids ensures Filled(s, u, k, names[k]) {
      StaysFilled(s, t, u, k, names[k]);
    }
    OneMoreFile(s, t, u, ids, id, names);
  }

  lemma StaysFilled(s: Store, t: Store, u: Store, id: nat, name: string)
    requires IsFileless(s, id) && Writable(s, id) && Filled(s, t, id, name) && id in u.rows && u.rows[id] == t.rows[id]
    requires forall p :: p in t.files ==> p in u.files && u.files[p] == t.files[p]
    ensures Filled(s, u, id, name)
  {
  }

  lemma OneMoreFile(s: Store, t: Store, u: Store, ids: seq<nat>, id: nat, names: map<nat, string>)
    requires Batch(s, ids + [id]) && Batch(s, ids)
    requires forall k :: k in ids + [id] ==> k in names
    requires FilesAdded(s, t, ids, names) && IsFileless(s, id) && Writable(s, id)
    requires BackfilledPath(s, id, names[id]) !in t.files
    requires u.files == t.files[BackfilledPath(s, id, names[id]) := s.rows[id].mid]
    ensures FilesAdded(s, u, ids + [id], names)
  {
    assert id in ids + [id];
    forall p | p in u.files && p !in s.files
      ensures exists k :: k in ids + [id] && p == BackfilledPath(s, k, names[k])
    {
      if p in t.files {
        var k :| k in ids && p == BackfilledPath(s, k, names[k]);
        assert k in ids + [id];
      }
    }
  }

  lemma FreshStaysFresh(t: Store, id: nat, name: string, other: string, now: int)
    requires Inv(t) && t.rooted && IsFileless(t, id) && Writable(t, id)
    requires NameFresh(t, name) && NameFresh(t, other) && name != other
    ensures NameFresh(Rewrite(t, id, name, now), other)
  {
    RewriteShape(t, id, name, now);
    NewPathIsFresh(t, t.rows[id], t.rows[id].folder.value, name);
    OtherNameFresh(t, Rewrite(t, id, name, now), id, BackfilledPath(t, id, name), other);
  }

  lemma OtherNameFresh(t: Store, u: Store, id: nat, p: Path, other: string)
    requires NameFresh(t, other) && p.Inside? && N.BaseOf(p.name) != other && id in t.rows && id in u.rows
    requires u.rows.Keys == t.rows.Keys && u.files.Keys == t.files.Keys + {p} && u.rows[id].rawPath == Some(p)
    requires forall k :: k in t.rows && k != id ==> u.rows[k] == t.rows[k]
    ensures NameFresh(u, other)
  {
  }

  /** The backfill gives every row of its batch a file of its own and changes nothing else. */
  lemma {:induction false} BackfillReaches(s: Store, ids: seq<nat>, names: map<nat, string>, now: int,
        skip: set<Path>, rest: set<string>)
    requires Sane(s) && s.rooted && FilesHaveRows(s, skip) && Batch(s, ids) && NamesFresh(s, ids, names)
    requires forall x :: x in rest ==> NameFresh(s, x) && forall id :: id in ids ==> names[id] != x
    ensures BackfillState(s, BackfillAll(s, ids, names, now), ids, names, skip)
    ensures forall x :: x in rest ==> NameFresh(BackfillAll(s, ids, names, now), x)
    decreases |ids|
  {
    if ids != [] {
      var n := |ids| - 1;
      var front, id := ids[..n], ids[n];
      assert id in ids && ids == front + [id];
      assert forall k :: k in front ==> k in ids;
      BackfillReaches(s, front, names, now, skip, rest + {names[id]});
      var t := BackfillAll(s, front, names, now);
      RewriteState(s, t, front, id, names, now, skip);
      forall x | x in rest ensures NameFresh(Rewrite(t, id, names[id], now), x) {
        FreshStaysFresh(t, id, names[id], x, now);
      }
    }
  }

  /** The row has a file of its own, made for it in the directory of its folder, with its message. */
  ghost predicate GivenFile(s: Store, t: Store, id: nat, name: string)
    requires IsFileless(s, id) && Writable(s, id)
  {
    && id in t.rows && t.rows[id].rawPath.Some?
    && var p := t.rows[id].rawPath.value;
       && MadeFor(s, s.rows[id], s.rows[id].folder.value, name, p)
       && p !in s.files && p in t.files && t.files[p] == s.rows[id].mid
       && t.rows[id] == s.rows[id].(rawPath := Some(p), modseq := t.rows[id].modseq, updatedAt := t.rows[id].updatedAt)
  }

  /** The listed rows have different files. */
  ghost predicate PathsApart(t: Store, ids: seq<nat>) {
    forall a, b :: a in ids && b in ids && a != b ==>
      a in t.rows && b in t.rows && t.rows[a].rawPath != t.rows[b].rawPath
  }

  /** The file is that of a listed row. */
  ghost predicate IsGiven(t: Store, p: Path, ids: seq<nat>) {
    exists id :: id in ids && id in t.rows && t.rows[id].rawPath == Some(p)
  }

  /** The backfill makes one file for each row of its batch, and no other; each lies in the directory of
      its row's folder. Other rows and files are as before. */
  lemma BackfillMakesFiles(s: Store, ids: seq<nat>, names: map<nat, string>, now: int)
    requires Sane(s) && s.rooted && Batch(s, ids) && NamesFresh(s, ids, names)
    ensures var t := BackfillAll(s, ids, names, now);
            && t.rows.Keys == s.rows.Keys && (forall id :: id in s.rows && id !in ids ==> t.rows[id] == s.rows[id])
            && (forall id :: id in ids ==> GivenFile(s, t, id, names[id])) && PathsApart(t, ids)
            && (forall p :: p in s.files ==> p in t.files && t.files[p] == s.files[p])
            && (forall p :: p in t.files && p !in s.files ==> IsGiven(t, p, ids))
  {
    BackfillReaches(s, ids, names, now, s.files.Keys, {});
    AllGiven(s, BackfillAll(s, ids, names, now), ids, names);
    GivenApart(s, BackfillAll(s, ids, names, now), ids, names);
  }

  lemma AllGiven(s: Store, t: Store, ids: seq<nat>, names: map<nat, string>)
    requires Batch(s, ids) && NamesFresh(s, ids, names) && RowsFilled(s, t, ids, names)
    ensures forall id :: id in ids ==> GivenFile(s, t, id, names[id])
    ensures forall p :: p in t.files && p !in s.files ==> IsGiven(t, p, ids)
  {
    forall id | id in ids ensures GivenFile(s, t, id, names[id]) {
      FilledIsGiven(s, t, id, names[id]);
    }
    forall p | p in t.files && p !in s.files ensures IsGiven(t, p, ids) {
      var id :| id in ids && p == BackfilledPath(s, id, names[id]);
      assert Filled(s, t, id, names[id]);
    }
  }

  lemma FilledIsGiven(s: Store, t: Store, id: nat, name: string)
    requires IsFileless(s, id) && Writable(s, id) && Filled(s, t, id, name) && NameFresh(s, name)
    ensures GivenFile(s, t, id, name)
  {
    NewPathIsFresh(s, s.rows[id], s.rows[id].folder.value, name);
    NewFileLies(s, s.rows[id], s.rows[id].folder.value, name);
  }

  /** Different names make different files. */
  lemma GivenApart(s: Store, t: Store, ids: seq<nat>, names: map<nat, string>)
    requires Batch(s, ids) && NamesFresh(s, ids, names)
    requires forall id :: id in ids ==> GivenFile(s, t, id, names[id])
    ensures PathsApart(t, ids)
  {
    forall a, b | a in ids && b in ids && a != b
      ensures a in t.rows && b in t.rows && t.rows[a].rawPath != t.rows[b].rawPath
    {
      var i :| 0 <= i < |ids| && ids[i] == a;
      var j :| 0 <= j < |ids| && ids[j] == b;
      assert names[a] != names[b];
      assert GivenFile(s, t, a, names[a]) && GivenFile(s, t, b, names[b]);
    }
  }

  /** The batch holds the oldest rows without a file, a hundred at most, in (created_at,id) order. */
  lemma BatchIsOldest(s: Store)
    ensures var ids := BackfillBatch(s);
            && Distinct(ids) && |ids| == Min(100, |Fileless(s)|)
            && (forall id :: id in Fileless(s) <==> IsFileless(s, id))
            && (forall i, j :: 0 <= i < j < |ids| ==> Sooner(s, ids[i], ids[j]))
            && (forall a, b :: a in ids && b in Fileless(s) && b !in ids ==> Sooner(s, a, b))
  {
    var all, ids := O.SortedIds(Fileless(s), CreatedAt(s)), BackfillBatch(s);
    O.SortedIsDistinct(Fileless(s), CreatedAt(s));
    forall i, j | 0 <= i < j < |all| ensures Sooner(s, all[i], all[j]) {
      assert O.IdBefore(CreatedAt(s), all[i], all[j]);
    }
    assert forall k {:trigger all[k]} :: 0 <= k < |ids| ==> ids[k] == all[k] && all[k] in ids;
    forall a, b | a in ids && b in Fileless(s) && b !in ids ensures Sooner(s, a, b) {
      var i :| 0 <= i < |ids| && ids[i] == a;
      var j :| 0 <= j < |all| && all[j] == b;
    }
  }

  // ---- Cleanup ----

  /** A mailbox's row whose file is gone. */
  predicate Orphan(s: Store, id: nat) {
    HasPath(s, id) && !Live(s, id)
  }

  lemma {:induction false} DeleteAllShape(s: Store, ids: seq<nat>)
    ensures DeleteAll(s, ids).files == s.files && DeleteAll(s, ids).nextId == s.nextId
    ensures SameFolders(s, DeleteAll(s, ids))
    ensures DeleteAll(s, ids).rows == map id | id in s.rows && id !in ids :: s.rows[id]
    decreases |ids|
  {
    if ids != [] {
      DeleteAllShape(s, ids[..|ids| - 1]);
      assert ids == ids[..|ids| - 1] + [ids[|ids| - 1]];
    } else {
      assert s.rows == map id | id in s.rows && id !in ids :: s.rows[id];
    }
  }

  lemma MissingAreOldOrphans(s: Store, cutoff: int)
    requires UnderRoot(s)
    ensures forall id :: id in Missing(s, cutoff) <==> Orphan(s, id) && s.rows[id].updatedAt < cutoff
  {
  }

  /** The cleanup removes exactly the old orphans. */
  ghost predicate Cleaned(s: Store, t: Store, cutoff: int) {
    && t.files == s.files && t.nextId == s.nextId && SameFolders(s, t)
    && (forall id :: id in t.rows <==> id in s.rows && !(Orphan(s, id) && s.rows[id].updatedAt < cutoff))
    && (forall id :: id in t.rows ==> t.rows[id] == s.rows[id])
  }

  lemma CleanupRemoves(s: Store, cutoff: int)
    requires s.rooted && UnderRoot(s)
    ensures Cleaned(s, CleanupMissing(s, cutoff), cutoff)
  {
    var ids := O.SortedIds(Missing(s, cutoff), CreatedAt(s));
    DeleteAllShape(s, ids);
    MissingAreOldOrphans(s, cutoff);
  }

  /** After the cleanup every row with a path has its file exactly when no orphan was younger
      than the cutoff. */
  lemma CleanupCompletesExactlyWhen(s: Store, cutoff: int, skip: set<Path>)
    requires s.rooted && UnderRoot(s)
    ensures RowsHaveFiles(CleanupMissing(s, cutoff)) <==> forall id :: Orphan(s, id) ==> s.rows[id].updatedAt < cutoff
    ensures FilesHaveRows(s, skip) ==> FilesHaveRows(CleanupMissing(s, cutoff), skip)
  {
    CleanupRemoves(s, cutoff);
    var t := CleanupMissing(s, cutoff);
    if id :| Orphan(s, id) && s.rows[id].updatedAt >= cutoff {
      assert HasPath(t, id) && !Live(t, id);
    }
    if FilesHaveRows(s, skip) {
      forall p | p in t.files && p !in skip ensures exists id :: Stands(t, id, p) {
        var id :| Stands(s, id, p);
        assert Stands(t, id, p);
      }
    }
  }

  // ---- The whole pass ----

  /** The store before the backfill can run on its batch. */
  ghost predicate Ready(s: Store, work: seq<Entry>, env: Env, names: map<nat, string>) {
    && Sane(s) && s.rooted && Listing(s, work)
    && NamesFresh(ScanAll(s, work, env).store, BackfillBatch(ScanAll(s, work, env).store), names)
  }

  /** After the file loops and the backfill of up to a hundred rows. */
  function Backfilled(s: Store, work: seq<Entry>, env: Env, names: map<nat, string>): Store
    requires Ready(s, work, env, names)
  {
    PassBasics(s, work, env);
    var t := ScanAll(s, work, env).store;
    BatchOk(t);
    BackfillAll(t, BackfillBatch(t), names, env.now)
  }

  /** The state `syncMaildirOnceDetailed` leaves. */
  function FullPass(s: Store, work: seq<Entry>, env: Env, names: map<nat, string>, cutoff: int): Store
    requires Ready(s, work, env, names)
  {
    CleanupMissing(Backfilled(s, work, env, names), cutoff)
  }

  lemma BatchOk(s: Store)
    requires Inv(s)
    ensures Batch(s, BackfillBatch(s))
  {
    var all := O.SortedIds(Fileless(s), CreatedAt(s));
    O.SortedIsDistinct(Fileless(s), CreatedAt(s));
    forall id | id in BackfillBatch(s) ensures IsFileless(s, id) && Writable(s, id) {
      assert RowOk(s, id, s.rows[id]);
    }
  }

  lemma BackfilledState(s: Store, work: seq<Entry>, env: Env, names: map<nat, string>)
    requires Ready(s, work, env, names)
    ensures var r := ScanAll(s, work, env);
            Sane(r.store) && Batch(r.store, BackfillBatch(r.store))
            && BackfillState(r.store, Backfilled(s, work, env, names), BackfillBatch(r.store), names,
                             Unread(s, work, r.failed))
            && Backfilled(s, work, env, names).rooted
  {
    PassBasics(s, work, env);
    var r := ScanAll(s, work, env);
    BatchOk(r.store);
    ScanGivesFilesRows(s, work, env);
    BackfillReaches(r.store, BackfillBatch(r.store), names, env.now, Unread(s, work, r.failed), {});
  }

  /** After every pass, whatever failed: each file that was listed and read, or that the backfill
      wrote, has exactly one row; and each row with a path has its file exactly when no row whose
      file was gone was younger than the cutoff. */
  lemma FullPassCorresponds(s: Store, work: seq<Entry>, env: Env, names: map<nat, string>, cutoff: int)
    requires Ready(s, work, env, names)
    ensures var b, u := Backfilled(s, work, env, names), FullPass(s, work, env, names, cutoff);
            && Sane(u) && OneRowEach(u, Unread(s, work, ScanAll(s, work, env).failed))
            && (RowsHaveFiles(u) <==> forall id :: Orphan(b, id) ==> b.rows[id].updatedAt < cutoff)
  {
    BackfilledState(s, work, env, names);
    var b, skip := Backfilled(s, work, env, names), Unread(s, work, ScanAll(s, work, env).failed);
    CleanupIsSane(b, cutoff);
    CleanupCompletesExactlyWhen(b, cutoff, skip);
    RowsAreUnique(CleanupMissing(b, cutoff), skip);
  }

  lemma CleanupIsSane(s: Store, cutoff: int)
    requires Sane(s) && s.rooted
    ensures Sane(CleanupMissing(s, cutoff))
  {
    CleanupKeeps(s, cutoff);
    CleanupRemoves(s, cutoff);
  }
}
