/** Which row takes over a file that the sync finds, and what becomes of that row, told from rows and
    files alone. */
module Takeover {
  import opened Common
  import opened StoreModel
  import opened StoreInvariants
  import opened StoreSteps
  import opened StoreEffects
  import opened MaildirScan
  import opened Reconcile
  import opened ReconcilePass
  import opened Rescan
  import O = OrderBy

  // ---- Which row ----

  /** A row of the file's mailbox and message that has no file: no path, this path, or one below the
      root where no file is. */
  predicate Fits(s: Store, p: Path, mid: Mid, id: nat) {
    && p.Inside? && id in s.rows && s.rows[id].mailbox == Some(p.mailbox) && s.rows[id].mid == mid != NO_MID
    && match s.rows[id].rawPath
       case None => true
       case Some(q) => q == p || (q.Inside? && q !in s.files)
  }

  /** Rows of folder `f` go before those of other folders, and either kind in (created_at,id) order. */
  predicate GoesBefore(s: Store, f: nat, a: nat, b: nat) {
    && a in s.rows && b in s.rows
    && if (s.rows[a].folder == Some(f)) == (s.rows[b].folder == Some(f)) then Sooner(s, a, b)
       else s.rows[a].folder == Some(f)
  }

  /** Of the rows that fit, the one that goes before all others. */
  ghost predicate Rightful(s: Store, f: nat, p: Path, mid: Mid, id: nat) {
    Fits(s, p, mid, id) && forall k :: Fits(s, p, mid, k) && k != id ==> GoesBefore(s, f, id, k)
  }

  lemma {:induction false} FirstUsableIs(s: Store, p: Path, ids: seq<nat>)
    requires (forall id :: id in ids ==> id in s.rows) && FirstUsable(s, p, ids).Some?
    ensures exists i :: 0 <= i < |ids| && FirstUsable(s, p, ids) == Some(ids[i])
                        && forall j :: 0 <= j < i ==> !Usable(s, p, ids[j])
  {
    if Usable(s, p, ids[0]) {
      assert FirstUsable(s, p, ids) == Some(ids[0]);
    } else {
      FirstUsableIs(s, p, ids[1..]);
      var i :| 0 <= i < |ids| - 1 && FirstUsable(s, p, ids) == Some(ids[1..][i])
               && forall j :: 0 <= j < i ==> !Usable(s, p, ids[1..][j]);
      assert ids[i + 1] == ids[1..][i];
      assert forall j :: 1 <= j < i + 1 ==> ids[j] == ids[1..][j - 1];
    }
  }

  lemma CandidatesInOrder(s: Store, f: nat, mid: Mid)
    requires f in s.folders
    ensures var ids := Candidates(s, f, mid);
            forall i, j :: 0 <= i < j < |ids| ==> GoesBefore(s, f, ids[i], ids[j])
  {
    var all := WithMid(s, s.folders[f].mailbox, mid);
    var here := set id | id in all && s.rows[id].folder == Some(f);
    SortedGoBefore(s, f, here);
    SortedGoBefore(s, f, all - here);
    BothGoBefore(s, f, O.SortedIds(here, CreatedAt(s)), O.SortedIds(all - here, CreatedAt(s)));
  }

  lemma BothGoBefore(s: Store, f: nat, a: seq<nat>, b: seq<nat>)
    requires forall id :: id in a ==> id in s.rows && s.rows[id].folder == Some(f)
    requires forall id :: id in b ==> id in s.rows && s.rows[id].folder != Some(f)
    requires forall i, j :: 0 <= i < j < |a| ==> GoesBefore(s, f, a[i], a[j])
    requires forall i, j :: 0 <= i < j < |b| ==> GoesBefore(s, f, b[i], b[j])
    ensures forall i, j :: 0 <= i < j < |a + b| ==> GoesBefore(s, f, (a + b)[i], (a + b)[j])
  {
    forall i, j | 0 <= i < |a| && 0 <= j < |b| ensures GoesBefore(s, f, a[i], b[j]) {
      assert a[i] in a && b[j] in b;
    }
  }

  lemma SortedGoBefore(s: Store, f: nat, ids: set<nat>)
    requires ids <= s.rows.Keys
    requires forall a, b :: a in ids && b in ids ==> (s.rows[a].folder == Some(f) <==> s.rows[b].folder == Some(f))
    ensures var order := O.SortedIds(ids, CreatedAt(s));
            forall i, j :: 0 <= i < j < |order| ==> GoesBefore(s, f, order[i], order[j])
  {
    var order := O.SortedIds(ids, CreatedAt(s));
    forall i, j | 0 <= i < j < |order| ensures GoesBefore(s, f, order[i], order[j]) {
      assert O.IdBefore(CreatedAt(s), order[i], order[j]) && order[i] in ids && order[j] in ids;
    }
  }

  lemma FitsIs(s: Store, f: nat, p: Path, mid: Mid, id: nat)
    requires Scannable(s, f, p)
    ensures Fits(s, p, mid, id) <==> id in WithMid(s, p.mailbox, mid) && Usable(s, p, id)
  {
  }

  lemma FirstGoesBefore(s: Store, f: nat, p: Path, ids: seq<nat>, i: nat, k: nat)
    requires (forall id :: id in ids ==> id in s.rows) && i < |ids| && k in ids && k != ids[i] && Usable(s, p, k)
    requires forall j :: 0 <= j < i ==> !Usable(s, p, ids[j])
    requires forall a, b :: 0 <= a < b < |ids| ==> GoesBefore(s, f, ids[a], ids[b])
    ensures GoesBefore(s, f, ids[i], k)
  {
    var j :| 0 <= j < |ids| && ids[j] == k;
  }

  lemma ChosenIsRightful(s: Store, f: nat, p: Path, mid: Mid)
    requires Scannable(s, f, p) && FirstUsable(s, p, Candidates(s, f, mid)).Some?
    ensures Rightful(s, f, p, mid, FirstUsable(s, p, Candidates(s, f, mid)).value)
  {
    var ids := Candidates(s, f, mid);
    var chosen := FirstUsable(s, p, ids).value;
    FirstUsableIs(s, p, ids);
    var i :| 0 <= i < |ids| && chosen == ids[i] && forall j :: 0 <= j < i ==> !Usable(s, p, ids[j]);
    FitsIs(s, f, p, mid, chosen);
    CandidatesInOrder(s, f, mid);
    forall k | Fits(s, p, mid, k) && k != chosen ensures GoesBefore(s, f, chosen, k) {
      FitsIs(s, f, p, mid, k);
      FirstGoesBefore(s, f, p, ids, i, k);
    }
  }

  lemma NoneFits(s: Store, f: nat, p: Path, mid: Mid)
    requires Scannable(s, f, p) && FirstUsable(s, p, Candidates(s, f, mid)).None?
    ensures forall id :: !Fits(s, p, mid, id)
  {
    forall id ensures !Fits(s, p, mid, id) {
      FitsIs(s, f, p, mid, id);
    }
  }

  // ---- What becomes of the row ----

  /** No row of the file's mailbox carries its path. */
  ghost predicate NoRowAt(s: Store, p: Path) {
    p.Inside? && forall k :: k in s.rows && s.rows[k].mailbox == Some(p.mailbox) ==> s.rows[k].rawPath != Some(p)
  }

  /** The row says what the file says; only UID and mod-sequence are left open. */
  predicate RowFollows(a: Row, b: Row, f: nat, p: Path, flags: (bool, bool), now: int) {
    b == a.(folder := Some(f), rawPath := Some(p), read := flags.0, starred := flags.1, uid := b.uid,
            modseq := b.modseq, updatedAt := now)
  }

  /** Row `id` stands for the file under the given UID; no other row and no file changed. */
  ghost predicate StandsNow(s: Store, t: Store, id: nat, f: nat, p: Path, flags: (bool, bool), now: int, uid: int) {
    && id in s.rows && id in t.rows && OneRowIs(s, t, id, t.rows[id]) && t.files == s.files
    && RowFollows(s.rows[id], t.rows[id], f, p, flags, now) && t.rows[id].uid == uid
  }

  /** The row that carries the file's path follows the file: in its own folder it keeps its UID, and its
      mod-sequence too when the flags are the same; into another folder it moves under the next UID. */
  ghost predicate KeepsItsFile(s: Store, t: Store, id: nat, f: nat, p: Path, flags: (bool, bool), now: int)
    requires f in s.folders && id in s.rows
  {
    var row := s.rows[id];
    && StandsNow(s, t, id, f, p, flags, now, if row.folder == Some(f) then row.uid else s.folders[f].uidNext)
    && (row.folder == Some(f) && (row.read, row.starred) == flags ==> t.rows[id].modseq == row.modseq)
  }

  lemma WhoKeepsTheFile(s: Store, f: nat, p: Path, mid: Mid, flags: (bool, bool), now: int, id: nat)
    requires Scannable(s, f, p) && id in s.rows && s.rows[id].mailbox == Some(p.mailbox)
    requires s.rows[id].rawPath == Some(p)
    ensures var (t, handled) := SyncExisting(s, f, p, mid, flags, now);
            handled && KeepsItsFile(s, t, id, f, p, flags, now)
  {
    assert id in AtPath(s, p.mailbox, p);
    OnlyAtPath(s, id, p);
    NoOtherAtPath(s, id, f, p);
    if s.rows[id].folder != Some(f) { AdoptedStands(s, id, f, p, flags, now); }
  }

  lemma AdoptedStands(s: Store, id: nat, f: nat, p: Path, flags: (bool, bool), now: int)
    requires Scannable(s, f, p) && id in s.rows && s.rows[id].mailbox == Some(p.mailbox)
    requires AtPath(s, p.mailbox, p) <= {id}
    ensures var t := Adopt(s, id, f, Found(s.rows[id], p, flags, now));
            StandsNow(s, t, id, f, p, flags, now, s.folders[f].uidNext)
  {
    NoOtherAtPath(s, id, f, p);
    var b := if s.rows[id].folder != Some(f) then Bump(s, s.rows[id].folder) else s;
    assert b.rows == s.rows && b.files == s.files && b.folders[f].uidNext == s.folders[f].uidNext;
    PlaceShape(b, id, f, Found(s.rows[id], p, flags, now));
  }

  /** The rightful row stands for the file, under the next UID of the file's folder. */
  ghost predicate TakenOver(s: Store, t: Store, f: nat, p: Path, mid: Mid, flags: (bool, bool), now: int)
    requires f in s.folders
  {
    exists id :: Rightful(s, f, p, mid, id) && StandsNow(s, t, id, f, p, flags, now, s.folders[f].uidNext)
  }

  /** So long as a row of folder `f` fits, the rows of other folders stay as they are. */
  ghost predicate OthersSpared(s: Store, t: Store, f: nat, p: Path, mid: Mid) {
    (exists k :: Fits(s, p, mid, k) && s.rows[k].folder == Some(f)) ==>
      forall k :: k in s.rows && s.rows[k].folder != Some(f) ==> k in t.rows && t.rows[k] == s.rows[k]
  }

  /** When no row carries the file's path, it is taken over exactly when a row fits: by the one that goes
      before all others that fit, under the next UID of the file's folder. So long as a row of that
      folder fits, no row of another folder changes. */
  lemma WhoTakesTheFile(s: Store, f: nat, p: Path, mid: Mid, flags: (bool, bool), now: int)
    requires Scannable(s, f, p) && NoRowAt(s, p)
    ensures var (t, handled) := SyncExisting(s, f, p, mid, flags, now);
            && (handled <==> exists id :: Fits(s, p, mid, id))
            && (handled ==> TakenOver(s, t, f, p, mid, flags, now)) && (!handled ==> t.rows == s.rows)
            && OthersSpared(s, t, f, p, mid)
  {
    assert AtPath(s, p.mailbox, p) == {};
    var chosen := FirstUsable(s, p, Candidates(s, f, mid));
    if chosen.None? {
      NobodyTakesTheFile(s, f, p, mid, flags, now);
    } else {
      ChosenTakesTheFile(s, f, p, mid, flags, now, chosen.value);
    }
  }

  lemma NobodyTakesTheFile(s: Store, f: nat, p: Path, mid: Mid, flags: (bool, bool), now: int)
    requires Scannable(s, f, p) && AtPath(s, p.mailbox, p) == {}
    requires FirstUsable(s, p, Candidates(s, f, mid)).None?
    ensures var (t, handled) := SyncExisting(s, f, p, mid, flags, now);
            !handled && t.rows == s.rows && (forall id :: !Fits(s, p, mid, id)) && OthersSpared(s, t, f, p, mid)
  {
    NoneFits(s, f, p, mid);
    LeftAlone(s, f, p, mid, flags, now);
  }

  lemma LeftAlone(s: Store, f: nat, p: Path, mid: Mid, flags: (bool, bool), now: int)
    requires f in s.folders && AtPath(s, s.folders[f].mailbox, p) == {}
    requires FirstUsable(s, p, Candidates(s, f, mid)).None?
    ensures var (t, handled) := SyncExisting(s, f, p, mid, flags, now); !handled && t.rows == s.rows
  {
  }

  lemma ChosenTakesTheFile(s: Store, f: nat, p: Path, mid: Mid, flags: (bool, bool), now: int, id: nat)
    requires Scannable(s, f, p) && AtPath(s, p.mailbox, p) == {}
    requires FirstUsable(s, p, Candidates(s, f, mid)) == Some(id)
    ensures var (t, handled) := SyncExisting(s, f, p, mid, flags, now);
            && handled && Fits(s, p, mid, id) && TakenOver(s, t, f, p, mid, flags, now)
            && OthersSpared(s, t, f, p, mid)
  {
    ChosenIsRightful(s, f, p, mid);
    AdoptedStands(s, id, f, p, flags, now);
    OwnFolderFirst(s, SyncExisting(s, f, p, mid, flags, now).0, id, f, p, mid);
  }

  lemma OwnFolderFirst(s: Store, t: Store, id: nat, f: nat, p: Path, mid: Mid)
    requires Rightful(s, f, p, mid, id) && id in t.rows && OneRowIs(s, t, id, t.rows[id])
    ensures OthersSpared(s, t, f, p, mid)
  {
    if k :| Fits(s, p, mid, k) && s.rows[k].folder == Some(f) {
      assert k == id || GoesBefore(s, f, id, k);
    }
  }

  // ---- One file, from beginning to end ----

  /** Some row of folder `f` has the message already. */
  ghost predicate FolderKnows(s: Store, f: nat, p: Path, mid: Mid) {
    p.Inside? && exists k :: k in s.rows && s.rows[k].mailbox == Some(p.mailbox) && s.rows[k].folder == Some(f)
                             && s.rows[k].mid == mid != NO_MID
  }

  /** The row of an imported message: what its file says, received when the message says so or else now. */
  ghost predicate NewRowOf(s: Store, t: Store, id: nat, f: nat, p: Path, env: Env)
    requires f in s.folders && p in s.files && p.Inside?
  {
    && id !in s.rows && id in t.rows && OneRowIs(s, t, id, t.rows[id]) && t.files == s.files
    && var row, flags := t.rows[id], FlagsOnDisk(s, f, p);
       && row == Row(Some(p.mailbox), Some(f), row.mid, Some(p), flags.0, flags.1, s.folders[f].uidNext, row.modseq,
                     if p in env.dates then env.dates[p] else env.now, env.now, env.now)
       && (if s.files[p] != NO_MID then row.mid == s.files[p]
           else row.mid.Generated? && forall k :: k in s.rows ==> s.rows[k].mid != row.mid)
  }

  /** All that the sync of one readable file can come to, and when: its row follows it; the rightful row
      takes it over; it is removed, when its folder knows the message; it is refused, over quota; or it
      is imported. */
  lemma SyncFileAnswers(s: Store, f: nat, p: Path, env: Env)
    requires Sane(s) && Scannable(s, f, p) && p in s.files && p !in env.unreadable
    ensures var (t, outcome), mid, flags := SyncFile(s, f, p, env), s.files[p], FlagsOnDisk(s, f, p);
            && (forall id :: Stands(s, id, p) ==> outcome == Handled && KeepsItsFile(s, t, id, f, p, flags, env.now))
            && (NoRowAt(s, p) && (exists id :: Fits(s, p, mid, id)) ==>
                  outcome == Handled && TakenOver(s, t, f, p, mid, flags, env.now))
            && (NoRowAt(s, p) && (forall id :: !Fits(s, p, mid, id)) ==>
                  if FolderKnows(s, f, p, mid) then outcome == Handled && t.rows == s.rows && t.files == s.files - {p}
                  else if p in env.overQuota then outcome == Failed && t.rows == s.rows && t.files == s.files
                  else outcome == Imported && exists id :: NewRowOf(s, t, id, f, p, env))
  {
    var s1, mid, flags := Numbered(s, p), FileMid(s, p), FlagsOnDisk(s, f, p);
    NumberedScannable(s, f, p);
    SameFits(s, p);
    assert SyncFile(s, f, p, env) == SyncParsed(s1, f, p, mid, flags, env);
    forall id | Stands(s, id, p)
      ensures SyncFile(s, f, p, env).1 == Handled && KeepsItsFile(s, SyncFile(s, f, p, env).0, id, f, p, flags, env.now)
    {
      WhoKeepsTheFile(s1, f, p, mid, flags, env.now, id);
      HandledWhenExisting(s, f, p, env);
    }
    if NoRowAt(s, p) {
      WhoTakesTheFile(s1, f, p, mid, flags, env.now);
      if exists id :: Fits(s, p, s.files[p], id) {
        HandledWhenExisting(s, f, p, env);
        TakenFrom(s, s1, SyncFile(s, f, p, env).0, f, p, flags, env.now);
      } else {
        UntakenAnswers(s, s1, f, p, env);
      }
    }
  }

  /** No row has a message id that is only now made up, so the same rows fit. */
  lemma SameFits(s: Store, p: Path)
    requires Sane(s) && p in s.files && p.Inside?
    ensures forall id :: Fits(Numbered(s, p), p, FileMid(s, p), id) <==> Fits(s, p, s.files[p], id)
    ensures forall f :: FolderKnows(Numbered(s, p), f, p, FileMid(s, p)) <==> FolderKnows(s, f, p, s.files[p])
  {
    var s1, mid := Numbered(s, p), FileMid(s, p);
    forall id | id in s.rows ensures s.rows[id].mid == mid != NO_MID <==> s.rows[id].mid == s.files[p] != NO_MID {
    }
    assert s1.rows == s.rows && s1.files == s.files;
  }

  lemma TakenFrom(s: Store, s1: Store, t: Store, f: nat, p: Path, flags: (bool, bool), now: int)
    requires Sane(s) && f in s.folders && p in s.files && p.Inside? && s1 == Numbered(s, p)
    requires TakenOver(s1, t, f, p, FileMid(s, p), flags, now)
    ensures TakenOver(s, t, f, p, s.files[p], flags, now)
  {
    SameFits(s, p);
    var id :|
      Rightful(s1, f, p, FileMid(s, p), id) && StandsNow(s1, t, id, f, p, flags, now, s1.folders[f].uidNext);
    forall k | Fits(s, p, s.files[p], k) && k != id ensures GoesBefore(s, f, id, k) {
      assert GoesBefore(s1, f, id, k);
    }
    assert Rightful(s, f, p, s.files[p], id) && StandsNow(s, t, id, f, p, flags, now, s.folders[f].uidNext);
  }

  lemma UntakenAnswers(s: Store, s1: Store, f: nat, p: Path, env: Env)
    requires Sane(s) && Scannable(s, f, p) && p in s.files && p !in env.unreadable && NoRowAt(s, p)
    requires s1 == Numbered(s, p) && Scannable(s1, f, p) && forall id :: !Fits(s1, p, FileMid(s, p), id)
    ensures var (t, outcome) := SyncFile(s, f, p, env);
            if FolderKnows(s, f, p, s.files[p]) then
              outcome == Handled && t.rows == s.rows && t.files == s.files - {p}
            else if p in env.overQuota then outcome == Failed && t.rows == s.rows && t.files == s.files
            else outcome == Imported && exists id :: NewRowOf(s, t, id, f, p, env)
  {
    var mid := FileMid(s, p);
    assert AtPath(s1, p.mailbox, p) == {};
    UnsettledWithoutFit(s1, f, p, mid);
    UnsettledIsDuplicate(s1, f, p, mid);
    KnownIs(s1, f, p, mid);
    SameFits(s, p);
    if !FolderKnows(s, f, p, s.files[p]) && p !in env.overQuota { ImportedRow(s, s1, f, p, env); }
  }

  lemma UnsettledWithoutFit(s: Store, f: nat, p: Path, mid: Mid)
    requires Scannable(s, f, p) && AtPath(s, p.mailbox, p) == {} && forall id :: !Fits(s, p, mid, id)
    ensures Settled(s, f, p, mid).None?
  {
    var chosen := FirstUsable(s, p, Candidates(s, f, mid));
    if chosen.Some? {
      ChosenIsRightful(s, f, p, mid);
    }
  }

  lemma KnownIs(s: Store, f: nat, p: Path, mid: Mid)
    requires Scannable(s, f, p) && AtPath(s, p.mailbox, p) == {}
    ensures Known(s, f, p, mid) <==> FolderKnows(s, f, p, mid)
  {
    if FolderKnows(s, f, p, mid) {
      var k :| k in s.rows && s.rows[k].mailbox == Some(p.mailbox) && s.rows[k].folder == Some(f)
               && s.rows[k].mid == mid != NO_MID;
      assert k in WithMid(s, p.mailbox, mid);
    }
  }

  lemma ImportedRow(s: Store, s1: Store, f: nat, p: Path, env: Env)
    requires Sane(s) && Scannable(s, f, p) && p in s.files && p !in env.unreadable && p !in env.overQuota
    requires NoRowAt(s, p) && s1 == Numbered(s, p) && Scannable(s1, f, p)
    requires Settled(s1, f, p, FileMid(s, p)).None? && !Known(s1, f, p, FileMid(s, p))
    requires RemoveDuplicate(s1, f, p, FileMid(s, p)) == s1
    ensures var (t, outcome) := SyncFile(s, f, p, env);
            outcome == Imported && exists id :: NewRowOf(s, t, id, f, p, env)
  {
    var row := NewRow(s1, f, p, FileMid(s, p), FlagsOnDisk(s, f, p), env);
    assert SyncFile(s, f, p, env) == (Insert(s1, row, true), Imported);
    NewRowIs(s, s1, f, p, env, row);
  }

  lemma NewRowIs(s: Store, s1: Store, f: nat, p: Path, env: Env, row: Row)
    requires Sane(s) && Scannable(s, f, p) && p in s.files && NoRowAt(s, p)
    requires s1 == Numbered(s, p) && Scannable(s1, f, p)
    requires row == NewRow(s1, f, p, FileMid(s, p), FlagsOnDisk(s, f, p), env)
    ensures NewRowOf(s, Insert(s1, row, true), s1.nextId, f, p, env)
  {
    InsertStores(s1, row, true);
    assert !PathTaken(s1.rows, row.mailbox, row.rawPath, s1.nextId);
  }

  // ---- The count of a pass ----

  /** The pass counts as imported exactly the rows it adds. */
  lemma {:induction false} ScanCountsImports(s: Store, work: seq<Entry>, env: Env)
    requires Sane(s) && Listing(s, work)
    ensures var r := ScanAll(s, work, env); s.rows.Keys <= r.store.rows.Keys
    ensures var r := ScanAll(s, work, env); |r.store.rows.Keys| == |s.rows.Keys| + r.imported
    decreases |work|
  {
    if work != [] {
      var n := |work| - 1;
      FrontListing(s, work);
      ScanCountsImports(s, work[..n], env);
      PassBasics(s, work[..n], env);
      var b := ScanAll(s, work[..n], env);
      OneImport(b.store, work[n], env);
    }
  }

  lemma OneImport(s: Store, e: Entry, env: Env)
    requires Sane(s) && EntryOk(s, e)
    ensures var (t, outcome) := SyncFile(s, e.folder, e.path, env);
            && s.rows.Keys <= t.rows.Keys
            && |t.rows.Keys| == |s.rows.Keys| + if outcome == Imported then 1 else 0
  {
    SyncFileStep(s, e.folder, e.path, env);
    var (t, outcome) := SyncFile(s, e.folder, e.path, env);
    KeysOfStep(s, t, outcome, e.folder, e.path);
  }

  lemma KeysOfStep(s: Store, t: Store, outcome: Outcome, f: nat, p: Path)
    requires f in s.folders && p.Inside? && FileStep(s, t, outcome, f, p)
    ensures s.rows.Keys <= t.rows.Keys && |t.rows.Keys| == |s.rows.Keys| + if outcome == Imported then 1 else 0
  {
    if outcome == Imported {
      var id :| Takes(s, t, id, f, p, FlagsOnDisk(s, f, p), FileMid(s, p));
      OneMember(s.rows.Keys, t.rows.Keys, id);
    }
  }

  lemma OneMember(a: set<nat>, b: set<nat>, id: nat)
    requires b == a + {id} && b > a
    ensures |b| == |a| + 1
  {
  }
}
