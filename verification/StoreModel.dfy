/** The message store: folders and message rows (the SQLite index), the Maildir files, and the
    IMAP UID and mod-sequence counters, with every store operation as a function from one state
    to the next. Ids from `newID` are drawn from a counter, so they are fresh by construction. */
module StoreModel {
  import opened Common
  import N = MaildirNames
  import O = OrderBy

  /** Go's math.MaxInt64, where the mod-sequence counter saturates. */
  const MAX_INT64 := 0x7FFF_FFFF_FFFF_FFFF

  /** A Message-Id header value, or the one `newID` makes up for a message without it. */
  datatype Mid = Header(text: string) | Generated(id: nat)
  const NO_MID := Header("")

  datatype Sub = New | Cur

  /** A file path: below the Maildir root (mailbox, folder directory, new or cur, base name) or not. */
  datatype Path = Inside(mailbox: nat, dir: string, sub: Sub, name: string) | Outside(name: string)

  datatype Folder = Folder(mailbox: nat, name: string, uidNext: int, highest: int)

  datatype Row = Row(mailbox: Option<nat>, folder: Option<nat>, mid: Mid, rawPath: Option<Path>,
                     read: bool, starred: bool, uid: int, modseq: int,
                     receivedAt: int, createdAt: int, updatedAt: int)

  /** `rooted` says whether a Maildir root is configured; a file's content is its Message-Id. */
  datatype Store = Store(rooted: bool, folders: map<nat, Folder>, rows: map<nat, Row>,
                         files: map<Path, Mid>, nextId: nat)

  // ---- Folder names and directories ----

  predicate IsInbox(name: string) { Lower(name) == "inbox" }

  predicate IsSystemFolder(name: string) {
    Lower(N.Trim(name, SPACES)) in {"inbox", "sent", "drafts", "archive", "spam", "trash"}
  }

  /** `maildirFolderPath`: the directory of a folder below its mailbox's Maildir. A name that leaves
      nothing behind the dot is joined to the Maildir itself. */
  function DirOf(folder: string): string {
    if IsInbox(folder) then ""
    else
      var name := N.Trim(folder, SPACES);
      var rest := if name != "" && name[0] == '.' then name[1..] else name;
      if rest == "" then "" else "." + rest
  }

  lemma InboxIsRoot()
    ensures IsInbox("Inbox") && DirOf("Inbox") == ""
  {
    assert Lower("Inbox") == "inbox";
  }

  function FlaggedPath(p: Path, read: bool, starred: bool): Path
    requires p.Inside?
  {
    Inside(p.mailbox, p.dir, if read || starred then Cur else New, N.WithFlags(p.name, read, starred))
  }

  function SubFor(folder: string, read: bool): Sub {
    if IsInbox(folder) && !read then New else Cur
  }

  // ---- UID and mod-sequence counters ----

  /** `x + 1` in Go's int64. */
  function Inc64(x: int): int { if x == MAX_INT64 then -MAX_INT64 - 1 else x + 1 }

  datatype Meta = Meta(uid: int, modseq: int)

  /** The same folders under the same names; counters may differ. */
  predicate SameFolders(s: Store, t: Store) {
    && t.rooted == s.rooted && t.folders.Keys == s.folders.Keys
    && forall f :: f in s.folders ==>
         t.folders[f].mailbox == s.folders[f].mailbox && t.folders[f].name == s.folders[f].name
  }

  function NextMeta(fld: Folder): Meta {
    Meta(if fld.uidNext < 1 then 1 else fld.uidNext,
         if Inc64(fld.highest) < 1 then 1 else Inc64(fld.highest))
  }

  /** `nextIMAPMetadata`: hand out the next UID and mod-sequence of a folder. */
  function Allocate(s: Store, f: nat): (t: Store)
    requires f in s.folders
    ensures SameFolders(s, t)
  {
    var m := NextMeta(s.folders[f]);
    s.(folders := s.folders[f := s.folders[f].(uidNext := m.uid + 1, highest := Max(s.folders[f].highest, m.modseq))])
  }

  function BumpValue(highest: int): int {
    var next := Inc64(highest);
    if next < 1 || next == MAX_INT64 then highest else next
  }

  /** `bumpFolderModSeqWithDB`; an absent folder changes nothing and yields 0. */
  function Bump(s: Store, f: Option<nat>): (t: Store)
    ensures SameFolders(s, t)
  {
    if f.Some? && f.value in s.folders then
      var fld := s.folders[f.value];
      s.(folders := s.folders[f.value := fld.(highest := Max(fld.highest, BumpValue(fld.highest)))])
    else s
  }

  function BumpResult(s: Store, f: Option<nat>): int {
    if f.Some? && f.value in s.folders then BumpValue(s.folders[f.value].highest) else 0
  }

  // ---- Row updates ----

  /** The unique index on (mailbox, raw_path): another row already carries this path. */
  predicate PathTaken(rows: map<nat, Row>, mailbox: Option<nat>, path: Option<Path>, id: nat) {
    path.Some? && exists k :: k in rows && k != id && rows[k].mailbox == mailbox && rows[k].rawPath == path
  }

  /** Give a row a place in folder `f` under a new UID. The counters move even when the unique
      index on raw_path refuses the row. */
  function Place(s: Store, id: nat, f: nat, row: Row): (t: Store)
    requires f in s.folders
    ensures SameFolders(s, t)
  {
    var m := NextMeta(s.folders[f]);
    var s1 := Allocate(s, f);
    if PathTaken(s.rows, row.mailbox, row.rawPath, id) then s1
    else s1.(rows := s.rows[id := row.(folder := Some(f), uid := m.uid, modseq := m.modseq)])
  }

  /** Rewrite a row in its folder under a new mod-sequence. */
  function Stamp(s: Store, id: nat, row: Row): (t: Store)
    ensures SameFolders(s, t)
  {
    var m := BumpResult(s, row.folder);
    var s1 := Bump(s, row.folder);
    if PathTaken(s.rows, row.mailbox, row.rawPath, id) then s1
    else s1.(rows := s.rows[id := row.(modseq := if m > 0 then m else row.modseq)])
  }

  function Rename(files: map<Path, Mid>, from: Path, to: Path): map<Path, Mid>
    requires from in files
  {
    if from == to then files else (files - {from})[to := files[from]]
  }

  function RemovePath(files: map<Path, Mid>, path: Option<Path>): map<Path, Mid> {
    if path.Some? && path.value.Inside? then files - {path.value} else files
  }

  /** A row whose file lies below the root and exists. */
  predicate FileThere(s: Store, row: Row) {
    row.rawPath.Some? && row.rawPath.value.Inside? && row.rawPath.value in s.files
  }

  // ---- Operations ----

  /** `ensureFolder`: a folder of this mailbox with this name, created when there is none. */
  function EnsureFolder(s: Store, mailbox: nat, name: string): Store {
    if exists f :: f in s.folders && s.folders[f].mailbox == mailbox && Lower(s.folders[f].name) == Lower(name) then s
    else s.(folders := s.folders[s.nextId := Folder(mailbox, name, 1, 1)], nextId := s.nextId + 1)
  }

  /** `newID`: the id itself is `s.nextId`. */
  function TakeId(s: Store): Store { s.(nextId := s.nextId + 1) }

  /** `insertMessageWithDB`: UID and mod-sequence come from the folder, if there is one. */
  function Insert(s: Store, row: Row, quotaOk: bool): Store
    requires row.folder.Some? ==> row.folder.value in s.folders
  {
    if !quotaOk then s
    else
      var s1 := TakeId(s);
      if row.folder.Some? then Place(s1, s.nextId, row.folder.value, row)
      else if PathTaken(s.rows, row.mailbox, row.rawPath, s.nextId) then s1
      else s1.(rows := s.rows[s.nextId := row.(uid := 0, modseq := 1)])
  }

  /** `updateMessageMaildirFlags`: rename the file after its flags; the flag says no error. */
  function UpdateFileFlags(s: Store, id: nat, read: bool, starred: bool, now: int): (Store, bool)
    requires id in s.rows
  {
    var row := s.rows[id];
    if !s.rooted || !FileThere(s, row) then (s, true)
    else
      var target := FlaggedPath(row.rawPath.value, read, starred);
      if target == row.rawPath.value then (s, true)
      else
        var s1 := s.(files := Rename(s.files, row.rawPath.value, target));
        (Stamp(s1, id, row.(rawPath := Some(target), updatedAt := now)),
         !PathTaken(s.rows, row.mailbox, Some(target), id))
  }

  /** `handleMarkRead` and `handleStar`: file name, then mod-sequence, then the flag columns. */
  function SetFlags(s: Store, id: nat, read: bool, starred: bool, now: int): Store {
    if id !in s.rows then s
    else
      var (s1, ok) := UpdateFileFlags(s, id, read, starred, now);
      if !ok then s1
      else Stamp(s1, id, s1.rows[id].(read := read, starred := starred, updatedAt := now))
  }

  /** `writeRawMessageToMaildirFolder` with replace and updateFolder set: write the message as a
      new file of folder `f` and move its row there. */
  function WriteToFolder(s: Store, id: nat, f: nat, name: string, now: int): Store
    requires id in s.rows && f in s.folders
  {
    var row := s.rows[id];
    if !s.rooted then s
    else
      var s1 := if row.folder.Some? && row.folder.value != f then Bump(s, row.folder) else s;
      if row.mailbox.None? then s1
      else
        var path := NewFilePath(s, row, f, name);
        var s2 := s1.(files := RemovePath(s.files[path := row.mid], row.rawPath));
        Place(s2, id, f, row.(rawPath := Some(path), updatedAt := now))
  }

  function NewFilePath(s: Store, row: Row, f: nat, name: string): Path
    requires f in s.folders && row.mailbox.Some?
  {
    var folder := s.folders[f].name;
    FlaggedPath(Inside(row.mailbox.value, DirOf(folder), SubFor(folder, row.read), name), row.read, row.starred)
  }

  /** `rewriteMessageMaildir`: the same in the message's own folder, keeping its UID. */
  function Rewrite(s: Store, id: nat, name: string, now: int): (t: Store)
    requires id in s.rows
    requires s.rows[id].folder.Some? ==> s.rows[id].folder.value in s.folders
    ensures SameFolders(s, t) && t.rows.Keys == s.rows.Keys
    ensures forall k :: k in s.rows ==> t.rows[k].folder == s.rows[k].folder
  {
    var row := s.rows[id];
    if !s.rooted || row.mailbox.None? || row.folder.None? then s
    else
      var path := NewFilePath(s, row, row.folder.value, name);
      var s1 := s.(files := RemovePath(s.files[path := row.mid], row.rawPath));
      Stamp(s1, id, row.(rawPath := Some(path), updatedAt := now))
  }

  /** `moveMessageMaildir`. On the rename path the source folder is not bumped: the code has
      already overwritten the folder it compares with. */
  function Move(s: Store, id: nat, target: nat, name: string, now: int): Store
    requires target in s.folders
  {
    if id !in s.rows then s
    else
      var row := s.rows[id];
      if !s.rooted then
        var s1 := if row.folder != Some(target) then Bump(s, row.folder) else s;
        Place(s1, id, target, row.(updatedAt := now))
      else if row.mailbox.None? then s
      else if !FileThere(s, row) then WriteToFolder(s, id, target, name, now)
      else
        var path := MovedPath(s, row, target);
        var s1 := s.(files := Rename(s.files, row.rawPath.value, path));
        Place(s1, id, target, row.(rawPath := Some(path), updatedAt := now))
  }

  function MovedPath(s: Store, row: Row, target: nat): Path
    requires target in s.folders && row.mailbox.Some? && FileThere(s, row)
  {
    var folder := s.folders[target].name;
    Inside(row.mailbox.value, DirOf(folder), SubFor(folder, row.read), row.rawPath.value.name)
  }

  predicate RenamePath(s: Store, id: nat) {
    id in s.rows && s.rooted && s.rows[id].mailbox.Some? && FileThere(s, s.rows[id])
  }

  /** `deleteMessage`: the file, the row, and a new mod-sequence for the folder. */
  function Delete(s: Store, id: nat): Store {
    if id !in s.rows then s
    else
      var s1 := s.(files := RemovePath(s.files, s.rows[id].rawPath));
      DeleteRow(s1, id)
  }

  function DeleteRow(s: Store, id: nat): Store
    requires id in s.rows
  {
    Bump(s.(rows := s.rows - {id}), s.rows[id].folder)
  }

  // ---- Folder deletion ----

  function RowsIn(s: Store, f: nat): set<nat> {
    set id | id in s.rows && s.rows[id].folder == Some(f)
  }

  function MailboxRowsIn(s: Store, mailbox: nat, f: nat): set<nat> {
    set id | id in RowsIn(s, f) && s.rows[id].mailbox == Some(mailbox)
  }

  function ReceivedAt(s: Store): map<nat, int> { map id | id in s.rows :: s.rows[id].receivedAt }

  function CreatedAt(s: Store): map<nat, int> { map id | id in s.rows :: s.rows[id].createdAt }

  /** The loop of `handleDeleteMailFolder`: place every listed message in `inbox`, in turn. */
  function PlaceAll(s: Store, ids: seq<nat>, inbox: nat, now: int): Store
    requires inbox in s.folders && forall id :: id in ids ==> id in s.rows
    decreases |ids|, 0
  {
    if ids == [] then s
    else
      var last := ids[|ids| - 1];
      var before := PlaceAll(s, ids[..|ids| - 1], inbox, now);
      PlaceAllKeepsRows(s, ids[..|ids| - 1], inbox, now);
      PlaceInPlace(before, last, inbox, now)
  }

  /** One `UPDATE messages SET folder_id=?,imap_uid=?,imap_modseq=?,updated_at=?`. */
  function PlaceInPlace(s: Store, id: nat, f: nat, now: int): Store
    requires id in s.rows && f in s.folders
  {
    var m := NextMeta(s.folders[f]);
    var row := s.rows[id].(folder := Some(f), uid := m.uid, modseq := m.modseq, updatedAt := now);
    Allocate(s, f).(rows := s.rows[id := row])
  }

  lemma PlaceAllKeepsRows(s: Store, ids: seq<nat>, inbox: nat, now: int)
    requires inbox in s.folders && forall id :: id in ids ==> id in s.rows
    ensures PlaceAll(s, ids, inbox, now).rows.Keys == s.rows.Keys
    ensures PlaceAll(s, ids, inbox, now).folders.Keys == s.folders.Keys
    decreases |ids|, 1
  {
    if ids != [] {
      PlaceAllKeepsRows(s, ids[..|ids| - 1], inbox, now);
    }
  }

  /** `DELETE FROM folders` with its ON DELETE CASCADE on messages. */
  function DropFolder(s: Store, f: nat): Store {
    s.(folders := s.folders - {f}, rows := s.rows - RowsIn(s, f))
  }

  /** `handleDeleteMailFolder`, past its checks. */
  function DeleteFolder(s: Store, mailbox: nat, f: nat, inbox: nat, now: int): Store
    requires inbox in s.folders
  {
    var ids := O.SortedIds(MailboxRowsIn(s, mailbox, f), ReceivedAt(s));
    var moved := PlaceAll(s, ids, inbox, now);
    Bump(DropFolder(moved, f), Some(inbox))
  }

  // ---- UID backfill ----

  function Unnumbered(s: Store, f: nat): set<nat> {
    set id | id in RowsIn(s, f) && s.rows[id].uid == 0
  }

  /** The loop of `backfillFolderIMAPUIDs`. */
  function NumberAll(s: Store, ids: seq<nat>, f: nat): Store
    requires f in s.folders && forall id :: id in ids ==> id in s.rows
    decreases |ids|, 0
  {
    if ids == [] then s
    else
      var before := NumberAll(s, ids[..|ids| - 1], f);
      NumberAllKeepsRows(s, ids[..|ids| - 1], f);
      NumberRow(before, ids[|ids| - 1], f)
  }

  function NumberRow(s: Store, id: nat, f: nat): Store
    requires id in s.rows && f in s.folders
  {
    var m := NextMeta(s.folders[f]);
    Allocate(s, f).(rows := s.rows[id := s.rows[id].(uid := m.uid, modseq := m.modseq)])
  }

  lemma NumberAllKeepsRows(s: Store, ids: seq<nat>, f: nat)
    requires f in s.folders && forall id :: id in ids ==> id in s.rows
    ensures NumberAll(s, ids, f).rows.Keys == s.rows.Keys
    ensures NumberAll(s, ids, f).folders.Keys == s.folders.Keys
    decreases |ids|, 1
  {
    if ids != [] {
      NumberAllKeepsRows(s, ids[..|ids| - 1], f);
    }
  }

  /** `COALESCE(MAX(column),d)` over the rows of a folder. */
  function MaxUid(s: Store, ids: set<nat>): (m: int)
    requires ids <= s.rows.Keys
    ensures forall id :: id in ids ==> s.rows[id].uid <= m
    ensures m != 0 ==> exists id :: id in ids && s.rows[id].uid == m
  {
    if ids == {} then 0
    else
      var key := map id | id in ids :: -s.rows[id].uid;
      var id := O.SortedIds(ids, key)[0];
      assert forall k :: k in ids ==> s.rows[k].uid <= s.rows[id].uid by { FirstIsLeast(ids, key); }
      s.rows[id].uid
  }

  function MaxModSeq(s: Store, ids: set<nat>): (m: int)
    requires ids <= s.rows.Keys
    ensures forall id :: id in ids ==> s.rows[id].modseq <= m
    ensures m != 1 ==> exists id :: id in ids && s.rows[id].modseq == m
  {
    if ids == {} then 1
    else
      var key := map id | id in ids :: -s.rows[id].modseq;
      var id := O.SortedIds(ids, key)[0];
      assert forall k :: k in ids ==> s.rows[k].modseq <= s.rows[id].modseq by { FirstIsLeast(ids, key); }
      s.rows[id].modseq
  }

  lemma FirstIsLeast(ids: set<nat>, key: map<nat, int>)
    requires ids != {} && ids <= key.Keys
    ensures O.SortedIds(ids, key)[0] in ids
    ensures forall k :: k in ids ==> key[O.SortedIds(ids, key)[0]] <= key[k]
  {
    var order := O.SortedIds(ids, key);
    forall k | k in ids ensures key[order[0]] <= key[k] {
      var i :| 0 <= i < |order| && order[i] == k;
      assert i == 0 || O.IdBefore(key, order[0], order[i]);
    }
  }

  /** `backfillFolderIMAPUIDs`. */
  function BackfillFolder(s: Store, f: nat): Store
    requires f in s.folders
  {
    var ids := O.SortedIds(Unnumbered(s, f), CreatedAt(s));
    NumberAllKeepsRows(s, ids, f);
    RaiseCounters(NumberAll(s, ids, f), f)
  }

  /** Its last statement: both counters of the folder go up to its messages. */
  function RaiseCounters(s: Store, f: nat): Store
    requires f in s.folders
  {
    var fld := s.folders[f];
    s.(folders := s.folders[f := fld.(uidNext := Max(fld.uidNext, MaxUid(s, RowsIn(s, f)) + 1),
                                       highest := Max(fld.highest, MaxModSeq(s, RowsIn(s, f))))])
  }

  // ---- Cleanup of rows whose file is gone ----

  function Missing(s: Store, cutoff: int): set<nat> {
    set id | id in s.rows && s.rows[id].mailbox.Some? && s.rows[id].rawPath.Some? && s.rows[id].rawPath.value.Inside?
             && s.rows[id].updatedAt < cutoff && s.rows[id].rawPath.value !in s.files
  }

  function DeleteAll(s: Store, ids: seq<nat>): Store
    decreases |ids|
  {
    if ids == [] then s
    else
      var before := DeleteAll(s, ids[..|ids| - 1]);
      if ids[|ids| - 1] in before.rows then DeleteRow(before, ids[|ids| - 1]) else before
  }

  /** `cleanupMissingMaildirMessages`; `cutoff` is five minutes before now. */
  function CleanupMissing(s: Store, cutoff: int): Store {
    if !s.rooted then s else DeleteAll(s, O.SortedIds(Missing(s, cutoff), CreatedAt(s)))
  }
}
