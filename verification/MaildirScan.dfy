/** One pass of the Maildir sync over files and rows: each listed file is matched with a row,
    imported, or removed as a duplicate. */
module MaildirScan {
  import opened Common
  import opened StoreModel
  import N = MaildirNames
  import O = OrderBy

  /** What a pass takes from outside: the clock, the files that cannot be read or parsed, those
      refused by the mailbox quota, and the dates of the messages that have one. */
  datatype Env = Env(now: int, unreadable: set<Path>, overQuota: set<Path>, dates: map<Path, int>)

  datatype Outcome = Imported | Handled | Failed

  function FlagsOnDisk(s: Store, f: nat, p: Path): (bool, bool)
    requires f in s.folders && p.Inside?
  {
    N.ReadFlags(p.name, IsInbox(s.folders[f].name))
  }

  // ---- The queries ----

  function Mine(s: Store, mailbox: nat): set<nat> {
    set id | id in s.rows && s.rows[id].mailbox == Some(mailbox)
  }

  function AtPath(s: Store, mailbox: nat, p: Path): set<nat> {
    set id | id in Mine(s, mailbox) && s.rows[id].rawPath == Some(p)
  }

  function WithMid(s: Store, mailbox: nat, mid: Mid): set<nat> {
    set id | id in Mine(s, mailbox) && s.rows[id].mid == mid && mid != NO_MID
  }

  function First(s: Store, ids: set<nat>): (id: nat)
    requires ids != {} && ids <= s.rows.Keys
    ensures id in ids
  {
    var order := O.SortedIds(ids, CreatedAt(s));
    assert order[0] in order;
    order[0]
  }

  /** `maildirMessageExists`. */
  predicate Known(s: Store, f: nat, p: Path, mid: Mid)
    requires f in s.folders
  {
    var mailbox := s.folders[f].mailbox;
    AtPath(s, mailbox, p) != {} || exists id :: id in WithMid(s, mailbox, mid) && s.rows[id].folder == Some(f)
  }

  /** The candidate rows for a file, those of its own folder first, then by creation time. */
  function Candidates(s: Store, f: nat, mid: Mid): (ids: seq<nat>)
    requires f in s.folders
    ensures forall id :: id in ids <==> id in WithMid(s, s.folders[f].mailbox, mid)
  {
    var all := WithMid(s, s.folders[f].mailbox, mid);
    var here := set id | id in all && s.rows[id].folder == Some(f);
    O.SortedIds(here, CreatedAt(s)) + O.SortedIds(all - here, CreatedAt(s))
  }

  /** A row that may take over file `p`: it has no path, this path, or one whose file is gone. */
  predicate Usable(s: Store, p: Path, id: nat)
    requires id in s.rows
  {
    var path := s.rows[id].rawPath;
    path.None? || path.value == p || (path.value.Inside? && path.value !in s.files)
  }

  function FirstUsable(s: Store, p: Path, ids: seq<nat>): (chosen: Option<nat>)
    requires forall id :: id in ids ==> id in s.rows
    ensures chosen.Some? ==> chosen.value in ids && Usable(s, p, chosen.value)
    ensures chosen.None? ==> forall id :: id in ids ==> !Usable(s, p, id)
  {
    if ids == [] then None
    else if Usable(s, p, ids[0]) then Some(ids[0])
    else FirstUsable(s, p, ids[1..])
  }

  // ---- One file ----

  function Found(row: Row, p: Path, flags: (bool, bool), now: int): Row {
    row.(rawPath := Some(p), read := flags.0, starred := flags.1, updatedAt := now)
  }

  /** Take row `id` over to file `p` of folder `f`, announcing it to the folder it leaves. */
  function Adopt(s: Store, id: nat, f: nat, row: Row): (t: Store)
    requires id in s.rows && f in s.folders
    ensures SameFolders(s, t)
  {
    Place(if s.rows[id].folder != Some(f) then Bump(s, s.rows[id].folder) else s, id, f, row)
  }

  /** The row already carries this path: follow the file's folder and flags. */
  function Refresh(s: Store, id: nat, f: nat, p: Path, flags: (bool, bool), now: int): (t: Store)
    requires id in s.rows && f in s.folders
    ensures SameFolders(s, t)
  {
    var row := s.rows[id];
    if row.folder != Some(f) then Adopt(s, id, f, Found(row, p, flags, now))
    else if (row.read, row.starred) != flags then Stamp(s, id, Found(row, p, flags, now))
    else s.(rows := s.rows[id := Found(row, p, flags, now)])
  }

  /** Rows of folder `f` with this message id and some file. */
  function FiledTwins(s: Store, f: nat, mid: Mid): set<nat>
    requires f in s.folders
  {
    set id | id in WithMid(s, s.folders[f].mailbox, mid) && s.rows[id].folder == Some(f) && s.rows[id].rawPath.Some?
  }

  /** `removeDuplicateMaildirMessage`. */
  function RemoveDuplicate(s: Store, f: nat, p: Path, mid: Mid): (t: Store)
    requires f in s.folders
    ensures SameFolders(s, t)
  {
    var twins := FiledTwins(s, f, mid);
    if twins == {} || s.rows[First(s, twins)].rawPath == Some(p) then s
    else s.(files := RemovePath(s.files, Some(p)))
  }

  /** `syncExistingMaildirMessageState`; the flag says that a row now stands for the file. */
  function SyncExisting(s: Store, f: nat, p: Path, mid: Mid, flags: (bool, bool), now: int): (r: (Store, bool))
    requires f in s.folders
    ensures SameFolders(s, r.0)
  {
    var here := AtPath(s, s.folders[f].mailbox, p);
    if here != {} then (Refresh(s, First(s, here), f, p, flags, now), true)
    else
      var chosen := FirstUsable(s, p, Candidates(s, f, mid));
      if chosen.None? then (RemoveDuplicate(s, f, p, mid), false)
      else (Adopt(s, chosen.value, f, Found(s.rows[chosen.value], p, flags, now)), true)
  }

  function FileMid(s: Store, p: Path): Mid
    requires p in s.files
  {
    if s.files[p] == NO_MID then Generated(s.nextId) else s.files[p]
  }

  function NewRow(s: Store, f: nat, p: Path, mid: Mid, flags: (bool, bool), env: Env): Row
    requires f in s.folders
  {
    Row(Some(s.folders[f].mailbox), Some(f), mid, Some(p), flags.0, flags.1, 0, 1,
        if p in env.dates then env.dates[p] else env.now, env.now, env.now)
  }

  /** The part of `syncMaildirFile` after the message is read and has its message id. */
  function SyncParsed(s: Store, f: nat, p: Path, mid: Mid, flags: (bool, bool), env: Env): (r: (Store, Outcome))
    requires f in s.folders
    ensures SameFolders(s, r.0)
  {
    var (t, handled) := SyncExisting(s, f, p, mid, flags, env.now);
    if Known(s, f, p, mid) || handled then (t, Handled)
    else if p in env.overQuota then (t, Failed)
    else (Insert(t, NewRow(t, f, p, mid, flags, env), true), Imported)
  }

  /** `syncMaildirFile`. */
  function SyncFile(s: Store, f: nat, p: Path, env: Env): (r: (Store, Outcome))
    requires f in s.folders && p.Inside?
    ensures SameFolders(s, r.0)
  {
    if p !in s.files || p in env.unreadable then (s, Failed)
    else SyncParsed(if s.files[p] == NO_MID then TakeId(s) else s, f, p, FileMid(s, p), FlagsOnDisk(s, f, p), env)
  }

  // ---- A whole pass ----

  /** One directory entry to look at: a file and the folder whose directory lists it. */
  datatype Entry = Entry(folder: nat, path: Path)

  datatype Pass = Pass(store: Store, failed: set<Path>, imported: nat)

  predicate EntryOk(s: Store, e: Entry) {
    && e.folder in s.folders && e.path.Inside? && e.path.mailbox == s.folders[e.folder].mailbox
    && e.path.dir == DirOf(s.folders[e.folder].name)
  }

  lemma EntryStaysOk(s: Store, t: Store, e: Entry)
    requires EntryOk(s, e) && SameFolders(s, t)
    ensures EntryOk(t, e)
  {
  }

  /** The file loops of `syncMaildirOnceDetailed` over the entries listed so far. */
  function ScanAll(s: Store, work: seq<Entry>, env: Env): (r: Pass)
    requires forall e :: e in work ==> EntryOk(s, e)
    ensures SameFolders(s, r.store)
    decreases |work|
  {
    if work == [] then Pass(s, {}, 0)
    else
      var n := |work| - 1;
      assert forall e :: e in work[..n] ==> e in work;
      var b := ScanAll(s, work[..n], env);
      assert EntryOk(b.store, work[n]) by {
        assert work[n] in work;
        EntryStaysOk(s, b.store, work[n]);
      }
      ScanEntry(b, work[n], env)
  }

  function ScanEntry(b: Pass, e: Entry, env: Env): (r: Pass)
    requires EntryOk(b.store, e)
    ensures SameFolders(b.store, r.store)
  {
    var (s, outcome) := SyncFile(b.store, e.folder, e.path, env);
    After(b, e, s, outcome)
  }

  function After(b: Pass, e: Entry, s: Store, outcome: Outcome): Pass {
    Pass(s,
         if outcome == Failed then b.failed + {e.path} else b.failed,
         if outcome == Imported then b.imported + 1 else b.imported)
  }

  // ---- Backfill of rows without a file ----

  /** The rows `backfillSQLiteMessagesToMaildir` looks for. */
  function Fileless(s: Store): set<nat> {
    set id | id in s.rows && s.rows[id].mailbox.Some? && s.rows[id].folder.Some? && s.rows[id].rawPath.None?
  }

  /** At most a hundred of them, oldest first. */
  function BackfillBatch(s: Store): (ids: seq<nat>)
    ensures |ids| <= 100 && forall id :: id in ids ==> id in Fileless(s)
  {
    var all := O.SortedIds(Fileless(s), CreatedAt(s));
    if |all| <= 100 then all
    else
      assert forall id :: id in all[..100] ==> id in all;
      all[..100]
  }

  predicate Writable(s: Store, id: nat) {
    id in s.rows && (s.rows[id].folder.Some? ==> s.rows[id].folder.value in s.folders)
  }

  lemma WritableStays(s: Store, t: Store, id: nat)
    requires Writable(s, id) && SameFolders(s, t) && t.rows.Keys == s.rows.Keys
    requires t.rows[id].folder == s.rows[id].folder
    ensures Writable(t, id)
  {
  }

  /** Its loop, `names[id]` being the file name made up for row `id`. */
  function BackfillAll(s: Store, ids: seq<nat>, names: map<nat, string>, now: int): (t: Store)
    requires forall id :: id in ids ==> Writable(s, id) && id in names
    ensures SameFolders(s, t) && t.rows.Keys == s.rows.Keys
    ensures forall id :: id in s.rows ==> t.rows[id].folder == s.rows[id].folder
    decreases |ids|
  {
    if ids == [] then s
    else
      var n := |ids| - 1;
      assert forall id :: id in ids[..n] ==> id in ids;
      var b := BackfillAll(s, ids[..n], names, now);
      assert Writable(b, ids[n]) && ids[n] in names by {
        assert ids[n] in ids;
        WritableStays(s, b, ids[n]);
      }
      Rewrite(b, ids[n], names[ids[n]], now)
  }
}
