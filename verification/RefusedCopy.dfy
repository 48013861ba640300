/** Where a second look is not idle: two passes over two copies of one message, with nothing changed
    in between, of which the first refuses a file and the second removes it. */
module RefusedCopy {
  import opened Common
  import opened StoreModel
  import opened StoreSteps
  import opened MaildirScan
  import opened Reconcile
  import opened ReconcilePass
  import opened Rescan

  // ---- One file ----

  lemma RefusedLeavesAll(s: Store, e: Entry, env: Env)
    requires Sane(s) && EntryOk(s, e) && Rejects(s, e, env) && (e.path in s.files ==> s.files[e.path] != NO_MID)
    ensures SyncFile(s, e.folder, e.path, env) == (s, Failed)
  {
    FailsExactlyWhen(s, e, env);
    if e.path in s.files && e.path !in env.unreadable {
      FailedParsed(s, e.folder, e.path, s.files[e.path], FlagsOnDisk(s, e.folder, e.path), env);
    }
  }

  /** A file that no row can take over is removed when its folder knows the message. */
  lemma KnownCopyIsRemoved(s: Store, e: Entry, env: Env)
    requires Sane(s) && EntryOk(s, e) && e.path in s.files && e.path !in env.unreadable && s.files[e.path] != NO_MID
    requires Settled(s, e.folder, e.path, s.files[e.path]).None? && Known(s, e.folder, e.path, s.files[e.path])
    ensures SyncFile(s, e.folder, e.path, env) == (s.(files := s.files - {e.path}), Handled)
  {
    UnsettledIsDuplicate(s, e.folder, e.path, s.files[e.path]);
  }

  lemma FirstRow(s: Store, t: Store, outcome: Outcome, f: nat, p: Path) returns (id: nat)
    requires s.rows == map[] && f in s.folders && p.Inside? && FileStep(s, t, outcome, f, p) && outcome != Failed
    ensures outcome == Imported && Takes(s, t, id, f, p, FlagsOnDisk(s, f, p), FileMid(s, p))
  {
    assert p in t.files;
    id :| Takes(s, t, id, f, p, FlagsOnDisk(s, f, p), FileMid(s, p));
  }

  /** Into a store without rows, a file that is not rejected is imported. */
  lemma FirstMessage(s: Store, e: Entry, env: Env) returns (id: nat)
    requires Sane(s) && EntryOk(s, e) && s.rows == map[] && !Rejects(s, e, env)
    ensures var (t, outcome), f, p := SyncFile(s, e.folder, e.path, env), e.folder, e.path;
            outcome == Imported && p in s.files && Takes(s, t, id, f, p, FlagsOnDisk(s, f, p), FileMid(s, p))
  {
    var (t, outcome) := SyncFile(s, e.folder, e.path, env);
    FailsExactlyWhen(s, e, env);
    SyncFileStep(s, e.folder, e.path, env);
    id := FirstRow(s, t, outcome, e.folder, e.path);
  }

  lemma ScanTwo(s: Store, a: Entry, b: Entry, env: Env)
    requires EntryOk(s, a) && EntryOk(s, b)
    ensures var r1 := ScanEntry(Pass(s, {}, 0), a, env);
            EntryOk(r1.store, b) && ScanAll(s, [a, b], env) == ScanEntry(r1, b, env)
  {
    assert [a, b][..1] == [a] && [a][..0] == [];
    assert ScanAll(s, [a], env) == ScanEntry(Pass(s, {}, 0), a, env);
  }

  // ---- The two copies ----

  const LARGE := Inside(0, "", New, "a")
  const SMALL := Inside(0, "", New, "b")
  const COPIES := [Entry(0, LARGE), Entry(0, SMALL)]

  /** An Inbox with two new files of one message, the first of which the quota refuses. */
  const TWO_COPIES :=
    Store(true, map[0 := Folder(0, "Inbox", 1, 1)], map[], map[LARGE := Header("m"), SMALL := Header("m")], 1)
  const NO_ROOM := Env(0, {}, {LARGE}, map[])

  lemma CopiesListed(s: Store)
    requires SameFolders(TWO_COPIES, s)
    ensures Listing(s, COPIES) && LARGE != SMALL && EntryOk(s, COPIES[0]) && EntryOk(s, COPIES[1])
  {
    assert LARGE.name[0] != SMALL.name[0];
    InboxIsRoot();
  }

  /** One row, of the small copy; both files. */
  predicate SmallIndexed(s: Store, id: nat) {
    && SameFolders(TWO_COPIES, s) && s.files == TWO_COPIES.files && s.rows.Keys == {id}
    && s.rows[id].mailbox == Some(0) && s.rows[id].rawPath == Some(SMALL) && s.rows[id].folder == Some(0)
    && s.rows[id].mid == Header("m")
  }

  lemma LargeRefused()
    ensures Sane(TWO_COPIES) && EntryOk(TWO_COPIES, COPIES[0])
    ensures SyncFile(TWO_COPIES, 0, LARGE, NO_ROOM) == (TWO_COPIES, Failed)
  {
    CopiesListed(TWO_COPIES);
    RefusedLeavesAll(TWO_COPIES, COPIES[0], NO_ROOM);
  }

  lemma SmallImported() returns (id: nat)
    ensures EntryOk(TWO_COPIES, COPIES[1]) && SyncFile(TWO_COPIES, 0, SMALL, NO_ROOM).1 == Imported
    ensures SmallIndexed(SyncFile(TWO_COPIES, 0, SMALL, NO_ROOM).0, id)
  {
    CopiesListed(TWO_COPIES);
    LargeRefused();
    id := FirstMessage(TWO_COPIES, COPIES[1], NO_ROOM);
  }

  lemma FirstLook() returns (id: nat)
    ensures Sane(TWO_COPIES) && Listing(TWO_COPIES, COPIES)
    ensures var first := ScanAll(TWO_COPIES, COPIES, NO_ROOM);
            first.failed == {LARGE} && first.imported == 1 && Sane(first.store) && SmallIndexed(first.store, id)
  {
    CopiesListed(TWO_COPIES);
    LargeRefused();
    ScanTwo(TWO_COPIES, COPIES[0], COPIES[1], NO_ROOM);
    id := SmallImported();
    PassBasics(TWO_COPIES, COPIES, NO_ROOM);
  }

  lemma LargeRemoved(s: Store, id: nat)
    requires Sane(s) && SmallIndexed(s, id)
    ensures EntryOk(s, COPIES[0])
    ensures SyncFile(s, 0, LARGE, NO_ROOM) == (s.(files := s.files - {LARGE}), Handled)
  {
    CopiesListed(s);
    assert id in WithMid(s, 0, Header("m"));
    assert AtPath(s, 0, LARGE) == {};
    UnsettledExactlyWhen(s, 0, LARGE, Header("m"));
    KnownCopyIsRemoved(s, COPIES[0], NO_ROOM);
  }

  lemma SecondLook(s: Store, id: nat)
    requires Sane(s) && SmallIndexed(s, id)
    ensures Listing(s, COPIES) && LARGE !in ScanAll(s, COPIES, NO_ROOM).store.files
  {
    CopiesListed(s);
    LargeRemoved(s, id);
    ScanTwo(s, COPIES[0], COPIES[1], NO_ROOM);
    var t := SyncFile(s, 0, LARGE, NO_ROOM).0;
    FilesKeep(s, s.files - {LARGE});
    SyncFileStep(t, 0, SMALL, NO_ROOM);
    FileStepMeans(t, SyncFile(t, 0, SMALL, NO_ROOM).0, SyncFile(t, 0, SMALL, NO_ROOM).1, 0, SMALL);
  }

  /** The first pass counts the large copy as an error and imports the other one; the second finds
      the message known and removes the large copy. */
  lemma RefusedCopyIsRemovedNext()
    ensures Sane(TWO_COPIES) && Listing(TWO_COPIES, COPIES)
    ensures var first := ScanAll(TWO_COPIES, COPIES, NO_ROOM);
            && first.failed == {LARGE} && first.imported == 1 && LARGE in first.store.files
            && Listing(first.store, COPIES)
            && LARGE !in ScanAll(first.store, COPIES, NO_ROOM).store.files
  {
    var id := FirstLook();
    SecondLook(ScanAll(TWO_COPIES, COPIES, NO_ROOM).store, id);
  }
}
