/** The file loops of a pass: afterwards every file that was not counted as an error has exactly one
    row, and nothing is lost. */
module ReconcilePass {
  import opened Common
  import opened StoreModel
  import opened StoreInvariants
  import opened MaildirScan
  import opened Reconcile

  /** Message ids made up so far come from the counter. */
  ghost predicate MidsFresh(s: Store) {
    && (forall id :: id in s.rows && s.rows[id].mid.Generated? ==> s.rows[id].mid.id < s.nextId)
    && (forall p :: p in s.files && s.files[p].Generated? ==> s.files[p].id < s.nextId)
  }

  /** The listed entries: files of known folders, each listed once. */
  ghost predicate Listing(s: Store, work: seq<Entry>) {
    && (forall e :: e in work ==> EntryOk(s, e))
    && (forall i, j :: 0 <= i < j < |work| ==> work[i].path != work[j].path)
  }

  ghost predicate LiveKept(s: Store, t: Store) {
    forall id :: Live(s, id) ==>
      && Live(t, id) && t.rows[id].rawPath == s.rows[id].rawPath
      && t.rows[id].mid == s.rows[id].mid && t.rows[id].mailbox == s.rows[id].mailbox
  }

  /** Another row of the same mailbox and message id has its own file on disk. */
  ghost predicate LivesElsewhere(t: Store, p: Path, mid: Mid)
    requires p.Inside?
  {
    exists id :: Live(t, id) && t.rows[id].mid == mid && t.rows[id].mailbox == Some(p.mailbox)
      && t.rows[id].rawPath != Some(p)
  }

  /** What holds of each entry once it has been looked at. */
  ghost predicate EntryDone(s: Store, r: Pass, e: Entry)
    requires EntryOk(r.store, e)
  {
    && (e.path !in s.files ==> e.path in r.failed)
    && (e.path in r.store.files && e.path !in r.failed ==> Indexed(r.store, e.folder, e.path))
    && (e.path in s.files && e.path !in r.store.files ==>
          s.files[e.path] != NO_MID && LivesElsewhere(r.store, e.path, s.files[e.path]))
  }

  ghost predicate FilesOnlyShrink(s: Store, t: Store) {
    forall q :: q in t.files ==> q in s.files && t.files[q] == s.files[q]
  }

  ghost predicate PassState(s: Store, t: Store) {
    && Kept(s, t) && SameFolders(s, t) && UnderRoot(t) && MidsFresh(t)
    && LiveKept(s, t) && FilesOnlyShrink(s, t)
  }

  ghost predicate PassDone(s: Store, r: Pass, work: seq<Entry>)
    requires forall e :: e in work ==> EntryOk(s, e)
  {
    && PassState(s, r.store)
    && (forall e :: e in work ==> EntryOk(r.store, e) && EntryDone(s, r, e))
    && Covers(s, r, work)
  }

  lemma StepKeepsMidsFresh(s: Store, t: Store, outcome: Outcome, f: nat, p: Path)
    requires Scannable(s, f, p) && UnderRoot(s) && MidsFresh(s) && FileStep(s, t, outcome, f, p)
    ensures MidsFresh(t)
    ensures outcome != Failed && p !in t.files ==> s.files[p] != NO_MID
  {
    if outcome != Failed {
      if p in t.files {
        var id :| Takes(s, t, id, f, p, FlagsOnDisk(s, f, p), FileMid(s, p));
        TakesKeepsMidsFresh(s, t, id, f, p);
      } else {
        var id :| Live(s, id) && s.rows[id].folder == Some(f) && s.rows[id].mid == FileMid(s, p)
                  && s.rows[id].rawPath != Some(p);
      }
    }
  }

  lemma TakesKeepsMidsFresh(s: Store, t: Store, id: nat, f: nat, p: Path)
    requires MidsFresh(s) && p in s.files && f in s.folders && p.Inside? && s.nextId <= t.nextId
    requires s.files[p] == NO_MID ==> s.nextId < t.nextId
    requires Takes(s, t, id, f, p, FlagsOnDisk(s, f, p), FileMid(s, p))
    ensures MidsFresh(t)
  {
  }

  lemma StepKeepsPassState(s: Store, b: Store, t: Store, outcome: Outcome, e: Entry)
    requires Inv(s) && PassState(s, b) && EntryOk(b, e) && FileStep(b, t, outcome, e.folder, e.path)
    ensures PassState(s, t) && LiveRowsKept(b, t, e.path) && FilesShrinkBy(b, t, e.path) && EntryOk(t, e)
    ensures outcome != Failed && e.path in t.files ==> Indexed(t, e.folder, e.path)
    ensures outcome != Failed && e.path !in t.files ==>
              b.files[e.path] != NO_MID && LivesElsewhere(t, e.path, b.files[e.path])
    ensures outcome == Failed ==> t.files == b.files
  {
    FileStepMeans(b, t, outcome, e.folder, e.path);
    StepKeepsMidsFresh(b, t, outcome, e.folder, e.path);
    StateThrough(s, b, t, e.path);
    if outcome != Failed && e.path !in t.files {
      TwinLives(t, e, b.files[e.path]);
    }
  }

  lemma StateThrough(s: Store, b: Store, t: Store, p: Path)
    requires Inv(s) && PassState(s, b) && Kept(b, t) && SameFolders(b, t) && UnderRoot(t) && MidsFresh(t)
    requires LiveRowsKept(b, t, p) && FilesShrinkBy(b, t, p)
    ensures PassState(s, t)
  {
    KeptThen(s, b, t);
  }

  lemma TwinLives(t: Store, e: Entry, mid: Mid)
    requires Inv(t) && EntryOk(t, e) && HasTwin(t, e.folder, e.path, mid)
    ensures LivesElsewhere(t, e.path, mid)
  {
    var id :| Live(t, id) && t.rows[id].folder == Some(e.folder) && t.rows[id].mid == mid
      && t.rows[id].rawPath != Some(e.path);
    assert RowOk(t, id, t.rows[id]);
  }

  lemma DoneStaysDone(s: Store, b: Pass, r: Pass, p: Path, d: Entry)
    requires EntryOk(b.store, d) && EntryOk(r.store, d) && d.path != p && EntryDone(s, b, d)
    requires FilesOnlyShrink(s, b.store) && FilesShrinkBy(b.store, r.store, p) && LiveRowsKept(b.store, r.store, p)
    requires SameFolders(b.store, r.store) && b.failed <= r.failed <= b.failed + {p}
    ensures EntryDone(s, r, d)
  {
    if d.path in r.store.files && d.path !in r.failed {
      var id :| Indexes(b.store, id, d.folder, d.path);
      assert Live(b.store, id);
      assert Indexes(r.store, id, d.folder, d.path);
    }
    if d.path in s.files && d.path !in r.store.files {
      assert d.path !in b.store.files;
      var id :| Live(b.store, id) && b.store.rows[id].mid == s.files[d.path]
                && b.store.rows[id].mailbox == Some(d.path.mailbox) && b.store.rows[id].rawPath != Some(d.path);
      assert Live(r.store, id);
    }
  }

  /** The entries looked at: all listed files are among them, and the errors too. */
  ghost predicate Covers(s: Store, r: Pass, work: seq<Entry>) {
    && (forall q :: q in s.files && q !in r.store.files ==> q in Paths(work))
    && r.failed <= Paths(work)
  }

  function Paths(work: seq<Entry>): set<Path> {
    set e | e in work :: e.path
  }

  lemma CoversOneMore(s: Store, b: Pass, r: Pass, front: seq<Entry>, e: Entry)
    requires Covers(s, b, front) && FilesShrinkBy(b.store, r.store, e.path) && r.failed <= b.failed + {e.path}
    ensures Covers(s, r, front + [e])
  {
    assert Paths(front + [e]) == Paths(front) + {e.path};
    forall q | q in s.files && q !in r.store.files ensures q in Paths(front + [e]) {
      assert q == e.path || q !in b.store.files.Keys - {e.path};
    }
  }

  lemma EntryStepDone(s: Store, b: Pass, front: seq<Entry>, e: Entry, env: Env)
    requires Inv(s) && (forall d :: d in front ==> EntryOk(s, d) && d.path != e.path) && EntryOk(s, e)
    requires PassDone(s, b, front) && EntryOk(b.store, e)
    ensures PassDone(s, ScanEntry(b, e, env), front + [e])
  {
    SyncFileStep(b.store, e.folder, e.path, env);
    var step := SyncFile(b.store, e.folder, e.path, env);
    StepDone(s, b, front, e, step.0, step.1);
  }

  lemma StepDone(s: Store, b: Pass, front: seq<Entry>, e: Entry, t: Store, outcome: Outcome)
    requires Inv(s) && (forall d :: d in front ==> EntryOk(s, d) && d.path != e.path) && EntryOk(s, e)
    requires PassDone(s, b, front) && EntryOk(b.store, e) && FileStep(b.store, t, outcome, e.folder, e.path)
    ensures PassDone(s, After(b, e, t, outcome), front + [e])
  {
    var r := After(b, e, t, outcome);
    StepKeepsPassState(s, b.store, t, outcome, e);
    CoversOneMore(s, b, r, front, e);
    NewEntryDone(s, b, r, front, e);
    OldEntriesDone(s, b, r, front, e.path);
    AllDone(s, r, front, e);
  }

  lemma AllDone(s: Store, r: Pass, front: seq<Entry>, e: Entry)
    requires (forall d :: d in front ==> EntryOk(s, d)) && EntryOk(s, e) && PassState(s, r.store)
    requires Covers(s, r, front + [e])
    requires forall d :: d in front ==> EntryOk(r.store, d) && EntryDone(s, r, d)
    requires EntryOk(r.store, e) && EntryDone(s, r, e)
    ensures PassDone(s, r, front + [e])
  {
  }

  lemma OldEntriesDone(s: Store, b: Pass, r: Pass, front: seq<Entry>, p: Path)
    requires forall d :: d in front ==> EntryOk(b.store, d) && EntryDone(s, b, d) && d.path != p
    requires FilesOnlyShrink(s, b.store) && FilesShrinkBy(b.store, r.store, p) && LiveRowsKept(b.store, r.store, p)
    requires SameFolders(b.store, r.store) && b.failed <= r.failed <= b.failed + {p}
    ensures forall d :: d in front ==> EntryOk(r.store, d) && EntryDone(s, r, d)
  {
    forall d | d in front ensures EntryOk(r.store, d) && EntryDone(s, r, d) {
      EntryStaysOk(b.store, r.store, d);
      DoneStaysDone(s, b, r, p, d);
    }
  }

  lemma NewEntryDone(s: Store, b: Pass, r: Pass, front: seq<Entry>, e: Entry)
    requires EntryOk(r.store, e) && Covers(s, b, front) && e.path !in Paths(front) && FilesOnlyShrink(s, b.store)
    requires e.path !in r.failed ==> e.path in b.store.files
    requires e.path !in r.failed && e.path in r.store.files ==> Indexed(r.store, e.folder, e.path)
    requires e.path !in r.failed && e.path in b.store.files && e.path !in r.store.files ==>
               b.store.files[e.path] != NO_MID && LivesElsewhere(r.store, e.path, b.store.files[e.path])
    requires e.path in r.failed && e.path in b.store.files ==> e.path in r.store.files
    ensures EntryDone(s, r, e)
  {
    assert e.path in s.files ==> e.path in b.store.files;
  }

  lemma {:induction false} ScanReconciles(s: Store, work: seq<Entry>, env: Env)
    requires Inv(s) && UnderRoot(s) && MidsFresh(s) && Listing(s, work)
    ensures PassDone(s, ScanAll(s, work, env), work)
    decreases |work|
  {
    EvolvesReflexive(s);
    if work != [] {
      var n := |work| - 1;
      var front := work[..n];
      assert work == front + [work[n]];
      assert forall e :: e in front ==> e in work;
      ScanReconciles(s, front, env);
      var b := ScanAll(s, front, env);
      assert work[n] in work;
      EntryStaysOk(s, b.store, work[n]);
      EntryStepDone(s, b, front, work[n], env);
    }
  }
}
