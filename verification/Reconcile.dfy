/** What the sync of one file achieves: file and row agree, or the file is a duplicate of one whose
    row and file are both there. */
module Reconcile {
  import opened Common
  import opened StoreModel
  import opened StoreInvariants
  import opened StoreSteps
  import opened MaildirScan

  /** A mailbox's row whose file is on disk. */
  predicate Live(s: Store, id: nat) {
    id in s.rows && s.rows[id].mailbox.Some? && s.rows[id].rawPath.Some? && s.rows[id].rawPath.value in s.files
  }

  /** Row `id` stands for file `p` of folder `f`, with the flags its name says. */
  predicate Indexes(s: Store, id: nat, f: nat, p: Path)
    requires f in s.folders && p.Inside?
  {
    && id in s.rows && s.rows[id].mailbox == Some(s.folders[f].mailbox) && s.rows[id].rawPath == Some(p)
    && s.rows[id].folder == Some(f) && (s.rows[id].read, s.rows[id].starred) == FlagsOnDisk(s, f, p)
  }

  ghost predicate Indexed(s: Store, f: nat, p: Path)
    requires f in s.folders && p.Inside?
  {
    exists id :: Indexes(s, id, f, p)
  }

  /** Every path stored for a mailbox lies under the Maildir root. */
  ghost predicate UnderRoot(s: Store) {
    forall id :: id in s.rows && s.rows[id].mailbox.Some? && s.rows[id].rawPath.Some? ==>
      s.rows[id].rawPath.value.Inside?
  }

  /** Rows other than the scanned file's keep everything; all live rows keep their file. */
  ghost predicate LiveRowsKept(s: Store, t: Store, p: Path) {
    forall id :: Live(s, id) ==>
      && Live(t, id) && t.rows[id].rawPath == s.rows[id].rawPath
      && t.rows[id].mid == s.rows[id].mid && t.rows[id].mailbox == s.rows[id].mailbox
      && (s.rows[id].rawPath != Some(p) ==> t.rows[id] == s.rows[id])
  }

  /** Another row of the same folder and message id has its own file on disk. */
  ghost predicate HasTwin(s: Store, f: nat, p: Path, mid: Mid) {
    exists id :: Live(s, id) && s.rows[id].folder == Some(f) && s.rows[id].mid == mid && s.rows[id].rawPath != Some(p)
  }

  // ---- One file ----

  /** In `t` row `id`, old or new, stands for file `p`; no other row and no file changed. */
  ghost predicate Takes(s: Store, t: Store, id: nat, f: nat, p: Path, flags: (bool, bool), mid: Mid) {
    && t.files == s.files && t.rows.Keys == s.rows.Keys + {id}
    && (forall k :: k in s.rows && k != id ==> t.rows[k] == s.rows[k])
    && p.Inside? && t.rows[id].mailbox == Some(p.mailbox) && t.rows[id].rawPath == Some(p)
    && t.rows[id].folder == Some(f) && (t.rows[id].read, t.rows[id].starred) == flags
    && (t.rows[id].mid == if id in s.rows then s.rows[id].mid else mid)
    && (id in s.rows ==> Usable(s, p, id) && s.rows[id].mailbox == Some(p.mailbox))
  }

  ghost predicate Kept(s: Store, t: Store) {
    Inv(t) && Evolves(s, t) && forall g :: Announced(s, t, g)
  }

  /** A pass looks only at files of the folder's own mailbox, below the root. */
  ghost predicate Scannable(s: Store, f: nat, p: Path) {
    Inv(s) && f in s.folders && p.Inside? && p.mailbox == s.folders[f].mailbox
  }

  lemma NoOtherAtPath(s: Store, id: nat, f: nat, p: Path)
    requires Scannable(s, f, p) && AtPath(s, p.mailbox, p) <= {id}
    ensures !PathTaken(s.rows, Some(p.mailbox), Some(p), id)
  {
    forall k | k in s.rows && s.rows[k].mailbox == Some(p.mailbox) && s.rows[k].rawPath == Some(p) ensures k == id {
      assert k in AtPath(s, p.mailbox, p);
    }
  }

  lemma AdoptTakes(s: Store, id: nat, f: nat, p: Path, flags: (bool, bool), now: int)
    requires Scannable(s, f, p) && id in s.rows && s.rows[id].mailbox == Some(p.mailbox)
    requires Usable(s, p, id) && AtPath(s, p.mailbox, p) <= {id}
    ensures Takes(s, Adopt(s, id, f, Found(s.rows[id], p, flags, now)), id, f, p, flags, s.rows[id].mid)
  {
    NoOtherAtPath(s, id, f, p);
    var b := if s.rows[id].folder != Some(f) then Bump(s, s.rows[id].folder) else s;
    assert b.rows == s.rows && b.files == s.files;
    PlaceShape(b, id, f, Found(s.rows[id], p, flags, now));
  }

  lemma PlaceShape(s: Store, id: nat, f: nat, row: Row)
    requires f in s.folders && !PathTaken(s.rows, row.mailbox, row.rawPath, id)
    ensures var t, m := Place(s, id, f, row), NextMeta(s.folders[f]);
            t.files == s.files && t.rows == s.rows[id := row.(folder := Some(f), uid := m.uid, modseq := m.modseq)]
  {
  }

  lemma AdoptKeeps(s: Store, id: nat, f: nat, p: Path, flags: (bool, bool), now: int)
    requires Scannable(s, f, p) && id in s.rows && s.rows[id].mailbox == Some(p.mailbox)
    ensures Kept(s, Adopt(s, id, f, Found(s.rows[id], p, flags, now)))
  {
    var b := if s.rows[id].folder != Some(f) then Bump(s, s.rows[id].folder) else s;
    BumpThenPlaceKeeps(s, b, id, f, Found(s.rows[id], p, flags, now));
  }

  lemma RefreshTakes(s: Store, id: nat, f: nat, p: Path, flags: (bool, bool), now: int)
    requires Scannable(s, f, p) && id in AtPath(s, p.mailbox, p)
    ensures Takes(s, Refresh(s, id, f, p, flags, now), id, f, p, flags, s.rows[id].mid)
  {
    OnlyAtPath(s, id, p);
    NoOtherAtPath(s, id, f, p);
    if s.rows[id].folder != Some(f) {
      AdoptTakes(s, id, f, p, flags, now);
    }
  }

  lemma OnlyAtPath(s: Store, id: nat, p: Path)
    requires Inv(s) && p.Inside? && id in AtPath(s, p.mailbox, p)
    ensures AtPath(s, p.mailbox, p) == {id}
  {
    forall k | k in AtPath(s, p.mailbox, p) ensures k == id {}
  }

  lemma RefreshKeeps(s: Store, id: nat, f: nat, p: Path, flags: (bool, bool), now: int)
    requires Scannable(s, f, p) && id in AtPath(s, p.mailbox, p)
    ensures Kept(s, Refresh(s, id, f, p, flags, now))
  {
    var row := s.rows[id];
    assert RowOk(s, id, row);
    if row.folder != Some(f) {
      AdoptKeeps(s, id, f, p, flags, now);
    } else if (row.read, row.starred) != flags {
      StampKeeps(s, id, Found(row, p, flags, now));
    } else {
      TouchKeeps(s, id, now);
      assert Found(row, p, flags, now) == row.(updatedAt := now);
    }
  }

  lemma TouchKeeps(s: Store, id: nat, now: int)
    requires Inv(s) && id in s.rows
    ensures Kept(s, s.(rows := s.rows[id := s.rows[id].(updatedAt := now)]))
  {
    var t := s.(rows := s.rows[id := s.rows[id].(updatedAt := now)]);
    assert RowOk(s, id, s.rows[id]);
    OneRow(s, t, id);
  }

  /** The row that `syncExistingMaildirMessageState` settles on, if any. */
  function Settled(s: Store, f: nat, p: Path, mid: Mid): (chosen: Option<nat>)
    requires f in s.folders
    ensures chosen.Some? ==> chosen.value in s.rows
  {
    var here := AtPath(s, s.folders[f].mailbox, p);
    if here != {} then Some(First(s, here)) else FirstUsable(s, p, Candidates(s, f, mid))
  }

  lemma SettledTakes(s: Store, f: nat, p: Path, mid: Mid, flags: (bool, bool), now: int)
    requires Scannable(s, f, p) && Settled(s, f, p, mid).Some?
    ensures SyncExisting(s, f, p, mid, flags, now).1
    ensures var (t, id) := (SyncExisting(s, f, p, mid, flags, now).0, Settled(s, f, p, mid).value);
            Takes(s, t, id, f, p, flags, mid) && Kept(s, t)
  {
    var id := Settled(s, f, p, mid).value;
    if AtPath(s, p.mailbox, p) != {} {
      RefreshTakes(s, id, f, p, flags, now);
      RefreshKeeps(s, id, f, p, flags, now);
    } else {
      AdoptTakes(s, id, f, p, flags, now);
      AdoptKeeps(s, id, f, p, flags, now);
    }
  }

  /** When no row can take the file over, a row of this folder and message id means that the file
      is a duplicate: it is removed, and the row's own file is another one, still on disk. */
  lemma UnsettledIsDuplicate(s: Store, f: nat, p: Path, mid: Mid)
    requires Scannable(s, f, p) && UnderRoot(s) && Settled(s, f, p, mid).None?
    ensures Known(s, f, p, mid) ==> HasTwin(s, f, p, mid) && RemoveDuplicate(s, f, p, mid) == s.(files := s.files - {p})
    ensures !Known(s, f, p, mid) ==> RemoveDuplicate(s, f, p, mid) == s
  {
    if Known(s, f, p, mid) {
      KnownHasTwin(s, f, p, mid);
      TwinRemoves(s, f, p, mid);
    } else {
      UnknownHasNone(s, f, p, mid);
    }
  }

  lemma KnownHasTwin(s: Store, f: nat, p: Path, mid: Mid)
    requires Scannable(s, f, p) && UnderRoot(s) && Settled(s, f, p, mid).None? && Known(s, f, p, mid)
    ensures HasTwin(s, f, p, mid) && FiledTwins(s, f, mid) != {}
  {
    var id :| id in WithMid(s, p.mailbox, mid) && s.rows[id].folder == Some(f);
    UnusableIsLive(s, f, p, mid, id);
    assert id in FiledTwins(s, f, mid);
  }

  lemma TwinRemoves(s: Store, f: nat, p: Path, mid: Mid)
    requires Scannable(s, f, p) && UnderRoot(s) && Settled(s, f, p, mid).None? && FiledTwins(s, f, mid) != {}
    ensures RemoveDuplicate(s, f, p, mid) == s.(files := s.files - {p})
  {
    var id := First(s, FiledTwins(s, f, mid));
    UnusableIsLive(s, f, p, mid, id);
  }

  lemma UnknownHasNone(s: Store, f: nat, p: Path, mid: Mid)
    requires Scannable(s, f, p) && !Known(s, f, p, mid)
    ensures RemoveDuplicate(s, f, p, mid) == s
  {
    TwinsMakeKnown(s, f, p, mid);
  }

  lemma TwinsMakeKnown(s: Store, f: nat, p: Path, mid: Mid)
    requires Scannable(s, f, p)
    ensures FiledTwins(s, f, mid) != {} ==> Known(s, f, p, mid)
  {
    if FiledTwins(s, f, mid) != {} {
      var id :| id in FiledTwins(s, f, mid);
      assert id in WithMid(s, p.mailbox, mid);
    }
  }

  lemma UnusableIsLive(s: Store, f: nat, p: Path, mid: Mid, id: nat)
    requires Scannable(s, f, p) && UnderRoot(s) && Settled(s, f, p, mid).None?
    requires id in WithMid(s, p.mailbox, mid) && s.rows[id].folder == Some(f)
    ensures Live(s, id) && s.rows[id].rawPath != Some(p)
    ensures HasTwin(s, f, p, mid) && Known(s, f, p, mid)
  {
    assert id in Candidates(s, f, mid) && !Usable(s, p, id);
  }

  lemma KeptThen(s: Store, t: Store, u: Store)
    requires Inv(s) && Kept(s, t) && Kept(t, u)
    ensures Kept(s, u)
  {
    Then(s, t, u);
  }

  lemma InsertTakes(s: Store, f: nat, p: Path, mid: Mid, flags: (bool, bool), env: Env)
    requires Scannable(s, f, p) && AtPath(s, p.mailbox, p) == {}
    ensures Takes(s, Insert(s, NewRow(s, f, p, mid, flags, env), true), s.nextId, f, p, flags, mid)
    ensures Kept(s, Insert(s, NewRow(s, f, p, mid, flags, env), true))
  {
    var row := NewRow(s, f, p, mid, flags, env);
    NoNextRow(s);
    InsertKeeps(s, row, true);
    NoOtherAtPath(s, s.nextId, f, p);
    PlaceShape(TakeId(s), s.nextId, f, row);
  }

  /** Everything one `syncMaildirFile` call does: it fails without a trace; or it leaves the file
      with exactly one row that says what the file says; or it removes the file, and then another
      row of the same folder and message id has its own file on disk. */
  ghost predicate FileStep(s: Store, t: Store, outcome: Outcome, f: nat, p: Path)
    requires f in s.folders && p.Inside?
  {
    && Kept(s, t) && SameFolders(s, t)
    && (outcome == Failed ==> t.rows == s.rows && t.files == s.files)
    && (outcome != Failed ==> p in s.files && (s.files[p] == NO_MID ==> s.nextId < t.nextId))
    && (outcome != Failed && p in t.files ==> exists id :: Takes(s, t, id, f, p, FlagsOnDisk(s, f, p), FileMid(s, p)))
    && (outcome != Failed && p !in t.files ==>
          t.rows == s.rows && t.files == s.files - {p}
          && AtPath(s, p.mailbox, p) == {} && HasTwin(s, f, p, FileMid(s, p)))
    && (outcome == Imported ==> t.rows.Keys > s.rows.Keys)
    && (outcome == Handled ==> t.rows.Keys == s.rows.Keys)
  }

  lemma SyncFileStep(s: Store, f: nat, p: Path, env: Env)
    requires Scannable(s, f, p) && UnderRoot(s)
    ensures FileStep(s, SyncFile(s, f, p, env).0, SyncFile(s, f, p, env).1, f, p)
  {
    EvolvesReflexive(s);
    if p in s.files && p !in env.unreadable {
      var s1 := if s.files[p] == NO_MID then TakeId(s) else s;
      TakeIdKeeps(s);
      KnownFileStep(s, s1, f, p, env);
    }
  }

  lemma KnownFileStep(s: Store, s1: Store, f: nat, p: Path, env: Env)
    requires Scannable(s, f, p) && UnderRoot(s) && p in s.files && p !in env.unreadable
    requires s1 == (if s.files[p] == NO_MID then TakeId(s) else s) && Kept(s, s1)
    ensures FileStep(s, SyncFile(s, f, p, env).0, SyncFile(s, f, p, env).1, f, p)
  {
    var mid := FileMid(s, p);
    if Settled(s1, f, p, mid).Some? {
      SettledFileStep(s, s1, f, p, env);
    } else {
      UnsettledIsDuplicate(s1, f, p, mid);
      if Known(s1, f, p, mid) {
        DuplicateFileStep(s, s1, f, p, env);
      } else if p !in env.overQuota {
        ImportFileStep(s, s1, f, p, env);
      }
    }
  }

  lemma SettledFileStep(s: Store, s1: Store, f: nat, p: Path, env: Env)
    requires Scannable(s, f, p) && p in s.files && p !in env.unreadable
    requires s1 == (if s.files[p] == NO_MID then TakeId(s) else s) && Kept(s, s1)
    requires Settled(s1, f, p, FileMid(s, p)).Some?
    ensures FileStep(s, SyncFile(s, f, p, env).0, SyncFile(s, f, p, env).1, f, p)
  {
    var mid, flags := FileMid(s, p), FlagsOnDisk(s, f, p);
    SettledTakes(s1, f, p, mid, flags, env.now);
    var (t, outcome) := SyncFile(s, f, p, env);
    assert t == SyncExisting(s1, f, p, mid, flags, env.now).0 && outcome == Handled;
    TakesFrom(s, s1, t, Settled(s1, f, p, mid).value, f, p, flags, mid);
    KeptThen(s, s1, t);
  }

  lemma TakesFrom(s: Store, s1: Store, t: Store, id: nat, f: nat, p: Path, flags: (bool, bool), mid: Mid)
    requires Takes(s1, t, id, f, p, flags, mid) && s1.rows == s.rows && s1.files == s.files
    ensures Takes(s, t, id, f, p, flags, mid)
    ensures id in s.rows ==> t.rows.Keys == s.rows.Keys
    ensures id !in s.rows ==> t.rows.Keys > s.rows.Keys
  {
  }

  lemma DuplicateFileStep(s: Store, s1: Store, f: nat, p: Path, env: Env)
    requires Scannable(s, f, p) && UnderRoot(s) && p in s.files && p !in env.unreadable
    requires s1 == (if s.files[p] == NO_MID then TakeId(s) else s) && Kept(s, s1)
    requires Settled(s1, f, p, FileMid(s, p)).None? && Known(s1, f, p, FileMid(s, p))
    ensures FileStep(s, SyncFile(s, f, p, env).0, SyncFile(s, f, p, env).1, f, p)
  {
    var mid := FileMid(s, p);
    UnsettledIsDuplicate(s1, f, p, mid);
    var (t, outcome) := SyncFile(s, f, p, env);
    assert t == s1.(files := s1.files - {p}) && outcome == Handled;
    FilesKeep(s1, s1.files - {p});
    KeptThen(s, s1, t);
    var id :| Live(s1, id) && s1.rows[id].folder == Some(f) && s1.rows[id].mid == mid && s1.rows[id].rawPath != Some(p);
    assert Live(s, id);
    assert AtPath(s, p.mailbox, p) == AtPath(s1, p.mailbox, p);
  }

  lemma ImportFileStep(s: Store, s1: Store, f: nat, p: Path, env: Env)
    requires Scannable(s, f, p) && UnderRoot(s) && p in s.files && p !in env.unreadable && p !in env.overQuota
    requires s1 == (if s.files[p] == NO_MID then TakeId(s) else s) && Kept(s, s1)
    requires Settled(s1, f, p, FileMid(s, p)).None? && !Known(s1, f, p, FileMid(s, p))
    ensures FileStep(s, SyncFile(s, f, p, env).0, SyncFile(s, f, p, env).1, f, p)
  {
    var mid, flags := FileMid(s, p), FlagsOnDisk(s, f, p);
    UnsettledIsDuplicate(s1, f, p, mid);
    var (t, outcome) := SyncFile(s, f, p, env);
    assert t == Insert(s1, NewRow(s1, f, p, mid, flags, env), true) && outcome == Imported;
    InsertTakes(s1, f, p, mid, flags, env);
    NoNextRow(s1);
    TakesFrom(s, s1, t, s1.nextId, f, p, flags, mid);
    KeptThen(s, s1, t);
  }

  /** What one file step means for live rows and the root. */
  lemma FileStepMeans(s: Store, t: Store, outcome: Outcome, f: nat, p: Path)
    requires Scannable(s, f, p) && UnderRoot(s) && FileStep(s, t, outcome, f, p)
    ensures LiveRowsKept(s, t, p) && UnderRoot(t)
    ensures outcome != Failed && p in t.files ==> Indexed(t, f, p)
    ensures outcome != Failed && p !in t.files ==> HasTwin(t, f, p, FileMid(s, p))
    ensures FilesShrinkBy(s, t, p)
  {
    if outcome != Failed {
      if p in t.files {
        var id :| Takes(s, t, id, f, p, FlagsOnDisk(s, f, p), FileMid(s, p));
        TakesMeans(s, t, id, f, p);
      } else {
        RemovalMeans(s, t, f, p);
      }
    }
  }

  /** No file is gone but `p`, and none is new or rewritten. */
  predicate FilesShrinkBy(s: Store, t: Store, p: Path) {
    && t.files.Keys <= s.files.Keys && s.files.Keys - {p} <= t.files.Keys
    && forall q :: q in t.files ==> q in s.files && t.files[q] == s.files[q]
  }

  lemma TakesMeans(s: Store, t: Store, id: nat, f: nat, p: Path)
    requires Scannable(s, f, p) && UnderRoot(s) && p in s.files && SameFolders(s, t)
    requires Takes(s, t, id, f, p, FlagsOnDisk(s, f, p), FileMid(s, p))
    ensures LiveRowsKept(s, t, p) && UnderRoot(t) && Indexed(t, f, p)
  {
    assert Indexes(t, id, f, p);
  }

  lemma RemovalMeans(s: Store, t: Store, f: nat, p: Path)
    requires Scannable(s, f, p) && UnderRoot(s) && p in s.files
    requires t.rows == s.rows && t.files == s.files - {p} && AtPath(s, p.mailbox, p) == {}
    requires HasTwin(s, f, p, FileMid(s, p))
    ensures LiveRowsKept(s, t, p) && UnderRoot(t) && HasTwin(t, f, p, FileMid(s, p))
  {
    forall k | Live(s, k) ensures s.rows[k].rawPath != Some(p) {
      assert RowOk(s, k, s.rows[k]);
      assert k !in AtPath(s, p.mailbox, p);
    }
    var id :| Live(s, id) && s.rows[id].folder == Some(f) && s.rows[id].mid == FileMid(s, p)
              && s.rows[id].rawPath != Some(p);
    assert Live(t, id);
  }
}
