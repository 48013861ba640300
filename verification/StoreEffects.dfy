/** What each operation on one message leaves of rows and files, told from the store before it: which
    row, which columns, which file, in which directory and under which name. */
module StoreEffects {
  import opened Common
  import opened StoreModel
  import opened StoreInvariants
  import N = MaildirNames

  // ---- Where files lie ----

  function WithoutDot(name: string): string { if name != "" && name[0] == '.' then name[1..] else name }

  /** The directory of a folder: Inbox, in any case, is the Maildir itself; any other folder is a dot
      and the trimmed name without a leading dot of its own, and the Maildir itself if that is nothing. */
  ghost predicate DirRule(folder: string, dir: string) {
    if Lower(folder) == "inbox" then dir == ""
    else exists name :: N.Trimmed(folder, SPACES, name)
                        && dir == if WithoutDot(name) == "" then "" else "." + WithoutDot(name)
  }

  /** Every folder has exactly one directory. */
  lemma DirRuleExactlyWhen(folder: string, dir: string)
    ensures DirRule(folder, dir) <==> dir == DirOf(folder)
  {
    N.TrimmedExactlyWhen(folder, SPACES, N.Trim(folder, SPACES));
    if Lower(folder) != "inbox" && DirRule(folder, dir) {
      var name :| N.Trimmed(folder, SPACES, name)
                  && dir == if WithoutDot(name) == "" then "" else "." + WithoutDot(name);
      N.TrimmedExactlyWhen(folder, SPACES, name);
    }
  }

  /** File `p` lies in the directory of folder `f`, below the Maildir of the given mailbox. */
  ghost predicate LiesIn(s: Store, p: Path, mailbox: nat, f: nat)
    requires f in s.folders
  {
    p.Inside? && p.mailbox == mailbox && DirRule(s.folders[f].name, p.dir)
  }

  /** A path lies in the directories of two folders only when they are the same directory. */
  lemma FoldersApart(s: Store, p: Path, mailbox: nat, f: nat, g: nat)
    requires f in s.folders && g in s.folders && LiesIn(s, p, mailbox, f) && LiesIn(s, p, mailbox, g)
    ensures DirOf(s.folders[f].name) == DirOf(s.folders[g].name)
  {
    DirRuleExactlyWhen(s.folders[f].name, p.dir);
    DirRuleExactlyWhen(s.folders[g].name, p.dir);
  }

  /** A file made for a message of folder `f` under a name of the server's: in that folder's directory,
      in `new` exactly when the message is neither read nor starred; and the name tells the flags
      exactly when the folder is Inbox or the message is read or starred. */
  ghost predicate MadeFor(s: Store, row: Row, f: nat, name: string, p: Path)
    requires f in s.folders
  {
    && row.mailbox.Some? && LiesIn(s, p, row.mailbox.value, f)
    && (p.sub == New <==> !row.read && !row.starred)
    && N.BaseOf(p.name) == name && N.FlagsOf(p.name) == N.Managed(row.read, row.starred)
    && (N.ReadFlags(p.name, IsInbox(s.folders[f].name)) == (row.read, row.starred)
        <==> IsInbox(s.folders[f].name) || row.read || row.starred)
  }

  lemma NewFileLies(s: Store, row: Row, f: nat, name: string)
    requires f in s.folders && row.mailbox.Some? && N.AllSafe(name)
    ensures MadeFor(s, row, f, name, NewFilePath(s, row, f, name))
  {
    DirRuleExactlyWhen(s.folders[f].name, DirOf(s.folders[f].name));
    N.SafeNamesHaveNoFlags(name);
    assert N.Foreign(name) == "";
    N.WithFlagsKeepsTheRest(name, row.read, row.starred);
    N.RoundTripExactly(name, row.read, row.starred, IsInbox(s.folders[f].name));
  }

  /** A made-up name: safe characters only, and no file or row uses it yet. */
  ghost predicate NameFresh(s: Store, name: string) {
    && N.AllSafe(name)
    && (forall p :: p in s.files && p.Inside? ==> N.BaseOf(p.name) != name)
    && (forall id :: id in s.rows && s.rows[id].rawPath.Some? && s.rows[id].rawPath.value.Inside? ==>
          N.BaseOf(s.rows[id].rawPath.value.name) != name)
  }

  lemma NewPathIsFresh(s: Store, row: Row, f: nat, name: string)
    requires f in s.folders && row.mailbox.Some? && NameFresh(s, name)
    ensures NewFilePath(s, row, f, name) !in s.files && N.BaseOf(NewFilePath(s, row, f, name).name) == name
    ensures forall id :: id in s.rows ==> s.rows[id].rawPath != Some(NewFilePath(s, row, f, name))
  {
    N.SafeNamesHaveNoFlags(name);
    N.WithFlagsKeepsTheRest(name, row.read, row.starred);
  }

  // ---- Rows and files before and after ----

  /** Row `id` is `row` now, and the others are as before. */
  ghost predicate OneRowIs(s: Store, t: Store, id: nat, row: Row) {
    t.rows == s.rows[id := row]
  }

  /** No other row of the mailbox carries this path. */
  ghost predicate PathFree(s: Store, id: nat, path: Path)
    requires id in s.rows
  {
    forall k :: k in s.rows && k != id && s.rows[k].mailbox == s.rows[id].mailbox ==> s.rows[k].rawPath != Some(path)
  }

  lemma OwnPathIsFree(s: Store, id: nat)
    requires Inv(s) && id in s.rows
    ensures !PathTaken(s.rows, s.rows[id].mailbox, s.rows[id].rawPath, id)
  {
  }

  /** File `from` is at `to` now, with its content; the other files are as before. */
  ghost predicate FileMoved(s: Store, t: Store, from: Path, to: Path) {
    && from in s.files && to in t.files && t.files[to] == s.files[from]
    && (from != to ==> from !in t.files)
    && (forall q :: q != from && q != to ==> (q in t.files <==> q in s.files))
    && (forall q :: q != to && q in t.files ==> q in s.files && t.files[q] == s.files[q])
  }

  /** File `p` is new, with the given content; `gone` is not there any more, if it was below the root;
      the others are as before. */
  ghost predicate FileMade(s: Store, t: Store, p: Path, content: Mid, gone: Option<Path>) {
    && p !in s.files && p in t.files && t.files[p] == content
    && (gone.Some? && gone.value.Inside? ==> gone.value !in t.files)
    && (forall q :: q != p && !(q.Inside? && gone == Some(q)) ==> (q in t.files <==> q in s.files))
    && (forall q :: q != p && q in t.files ==> q in s.files && t.files[q] == s.files[q])
  }

  /** Row `a` comes before row `b` in (created_at,id) order. */
  predicate Sooner(s: Store, a: nat, b: nat) {
    && a in s.rows && b in s.rows
    && (s.rows[a].createdAt < s.rows[b].createdAt || (s.rows[a].createdAt == s.rows[b].createdAt && a < b))
  }

  // ---- Insert ----

  /** A refused quota adds nothing. Otherwise the message gets a new id and, unless another row of
      its mailbox carries its path, a row with exactly the given content, under the next UID of its
      folder; a message without a folder has none. */
  lemma InsertStores(s: Store, row: Row, quotaOk: bool)
    requires Inv(s) && (row.folder.Some? ==> row.folder.value in s.folders)
    ensures var t := Insert(s, row, quotaOk);
            && s.nextId !in s.rows && t.files == s.files && SameFolders(s, t)
            && (!quotaOk ==> t == s)
            && (quotaOk ==> t.nextId == s.nextId + 1)
            && (quotaOk && PathTaken(s.rows, row.mailbox, row.rawPath, s.nextId) ==> t.rows == s.rows)
            && (quotaOk && !PathTaken(s.rows, row.mailbox, row.rawPath, s.nextId) ==>
                  && s.nextId in t.rows && OneRowIs(s, t, s.nextId, t.rows[s.nextId])
                  && t.rows[s.nextId] == row.(uid := t.rows[s.nextId].uid, modseq := t.rows[s.nextId].modseq)
                  && (row.folder.None? ==> t.rows[s.nextId].uid == 0 && t.rows[s.nextId].modseq == 1)
                  && (row.folder.Some? ==> t.rows[s.nextId].uid == s.folders[row.folder.value].uidNext))
  {
    assert forall id :: id in s.rows ==> RowOk(s, id, s.rows[id]);
  }

  // ---- Delete ----

  /** The row is gone, and so is its file if it lies below the root; no other row or file changed. */
  lemma DeleteRemoves(s: Store, id: nat)
    ensures var t := Delete(s, id);
            && SameFolders(s, t) && (id !in s.rows ==> t == s)
            && t.rows == s.rows - {id}
            && (id in s.rows ==>
                  forall p :: p in t.files <==> p in s.files && !(p.Inside? && s.rows[id].rawPath == Some(p)))
            && (forall p :: p in t.files ==> t.files[p] == s.files[p])
  {
    if id !in s.rows { assert s.rows - {id} == s.rows; }
  }

  // ---- Flags ----

  /** `p` is the path of `was` after a flag change: the same directory and base name, in `cur` exactly
      when a flag is set, with the foreign flags of the old name and then the flags set. */
  ghost predicate Reflagged(was: Path, p: Path, read: bool, starred: bool) {
    && was.Inside? && p.Inside? && p.mailbox == was.mailbox && p.dir == was.dir
    && (p.sub == Cur <==> read || starred)
    && var flags := N.Foreign(was.name) + N.Managed(read, starred);
       p.name == if flags == "" then N.BaseOf(was.name) else N.BaseOf(was.name) + N.SEPARATOR + flags
  }

  lemma ReflaggedIs(was: Path, p: Path, read: bool, starred: bool)
    requires was.Inside?
    ensures Reflagged(was, p, read, starred) <==> p == FlaggedPath(was, read, starred)
  {
    N.WrittenIs(was.name, read, starred);
  }

  /** What such a name says when it is read back. */
  lemma ReflaggedTells(was: Path, p: Path, read: bool, starred: bool, inInbox: bool)
    requires Reflagged(was, p, read, starred)
    ensures read || starred || N.HasForeignFlag(was.name) ==> N.ReadFlags(p.name, inInbox) == (read, starred)
    ensures N.NoSeparator(N.BaseOf(was.name)) ==>
              (N.ReadFlags(p.name, inInbox) == (read, starred)
               <==> inInbox || read || starred || N.HasForeignFlag(was.name))
  {
    ReflaggedIs(was, p, read, starred);
    if read || starred || N.HasForeignFlag(was.name) { N.FlagsReadBack(was.name, read, starred, inInbox); }
    if N.NoSeparator(N.BaseOf(was.name)) { N.RoundTripExactly(was.name, read, starred, inInbox); }
  }

  /** The row with other flags; only mod-sequence and update time change with them. */
  predicate RowFlagged(a: Row, b: Row, path: Option<Path>, read: bool, starred: bool, now: int) {
    b == a.(rawPath := path, read := read, starred := starred, modseq := b.modseq, updatedAt := now)
  }

  /** A message without a file below the root just gets the flags. */
  lemma FlagsWithoutFile(s: Store, id: nat, read: bool, starred: bool, now: int)
    requires Inv(s) && id in s.rows && (!s.rooted || !FileThere(s, s.rows[id]))
    ensures var t := SetFlags(s, id, read, starred, now);
            && t.files == s.files && id in t.rows && OneRowIs(s, t, id, t.rows[id])
            && RowFlagged(s.rows[id], t.rows[id], s.rows[id].rawPath, read, starred, now)
  {
    OwnPathIsFree(s, id);
  }

  /** A message with a file gets the flags, and its file the name that says so. If another row of the
      mailbox carries that name, the file is renamed and no row changes. */
  lemma FlagsWithFile(s: Store, id: nat, read: bool, starred: bool, now: int, p: Path)
    requires Inv(s) && id in s.rows && s.rooted && FileThere(s, s.rows[id])
    requires Reflagged(s.rows[id].rawPath.value, p, read, starred)
    ensures var t := SetFlags(s, id, read, starred, now);
            && FileMoved(s, t, s.rows[id].rawPath.value, p)
            && (PathFree(s, id, p) ==>
                  id in t.rows && OneRowIs(s, t, id, t.rows[id])
                  && RowFlagged(s.rows[id], t.rows[id], Some(p), read, starred, now))
            && (!PathFree(s, id, p) ==> t.rows == s.rows)
  {
    ReflaggedIs(s.rows[id].rawPath.value, p, read, starred);
    FileFlagsShape(s, id, read, starred, now, p);
    RenameMoves(s, SetFlags(s, id, read, starred, now), s.rows[id].rawPath.value, p);
    var (s1, ok) := UpdateFileFlags(s, id, read, starred, now);
    if ok { assert !PathTaken(s1.rows, s1.rows[id].mailbox, s1.rows[id].rawPath, id); }
  }

  /** Another row of the mailbox carries the path that the flags would give the file. */
  ghost predicate PathClashes(s: Store, id: nat, read: bool, starred: bool)
    requires id in s.rows
  {
    s.rooted && FileThere(s, s.rows[id])
    && exists p :: Reflagged(s.rows[id].rawPath.value, p, read, starred) && !PathFree(s, id, p)
  }

  /** The row has these flags now, if it is there and no other row carries its new path; else no row
      changed. */
  ghost predicate FlagsSet(s: Store, t: Store, id: nat, read: bool, starred: bool, now: int) {
    if id in s.rows && !PathClashes(s, id, read, starred) then
      && id in t.rows && OneRowIs(s, t, id, t.rows[id])
      && RowFlagged(s.rows[id], t.rows[id], t.rows[id].rawPath, read, starred, now)
    else t.rows == s.rows
  }

  /** With a file or without. */
  lemma FlagsAreSet(s: Store, id: nat, read: bool, starred: bool, now: int)
    requires Inv(s)
    ensures FlagsSet(s, SetFlags(s, id, read, starred, now), id, read, starred, now)
  {
    if id in s.rows {
      if s.rooted && FileThere(s, s.rows[id]) {
        var was := s.rows[id].rawPath.value;
        var p := FlaggedPath(was, read, starred);
        ReflaggedIs(was, p, read, starred);
        FlagsWithFile(s, id, read, starred, now, p);
        forall q | Reflagged(was, q, read, starred) ensures q == p {
          ReflaggedIs(was, q, read, starred);
        }
      } else {
        FlagsWithoutFile(s, id, read, starred, now);
      }
    }
  }

  lemma RenameMoves(s: Store, t: Store, from: Path, to: Path)
    requires from in s.files && t.files == Rename(s.files, from, to)
    ensures FileMoved(s, t, from, to)
  {
  }

  /** The file part of a flag change. */
  lemma FileFlagsShape(s: Store, id: nat, read: bool, starred: bool, now: int, p: Path)
    requires Inv(s) && id in s.rows && s.rooted && FileThere(s, s.rows[id])
    requires p == FlaggedPath(s.rows[id].rawPath.value, read, starred)
    ensures var (t, ok) := UpdateFileFlags(s, id, read, starred, now);
            && t.files == Rename(s.files, s.rows[id].rawPath.value, p) && (ok <==> PathFree(s, id, p))
            && (!ok ==> t.rows == s.rows)
            && (ok ==>
                  && id in t.rows && OneRowIs(s, t, id, t.rows[id])
                  && t.rows[id] == s.rows[id].(rawPath := Some(p), modseq := t.rows[id].modseq,
                                               updatedAt := t.rows[id].updatedAt))
  {
    OwnPathIsFree(s, id);
    assert PathFree(s, id, p) <==> !PathTaken(s.rows, s.rows[id].mailbox, Some(p), id);
  }

  // ---- Moves and rewrites ----

  /** The row in its new place; only folder, path, UID, mod-sequence and update time changed. */
  predicate RowRefiled(a: Row, b: Row, f: nat, path: Option<Path>, now: int) {
    b == a.(folder := Some(f), rawPath := path, uid := b.uid, modseq := b.modseq, updatedAt := now)
  }

  ghost predicate Refiled(s: Store, t: Store, id: nat, f: nat, path: Option<Path>, now: int)
    requires id in s.rows && f in s.folders
  {
    && id in t.rows && OneRowIs(s, t, id, t.rows[id]) && RowRefiled(s.rows[id], t.rows[id], f, path, now)
    && t.rows[id].uid == s.folders[f].uidNext
  }

  /** Without a Maildir a move changes the row alone, and not its path. */
  lemma MoveWithoutMaildir(s: Store, id: nat, target: nat, name: string, now: int)
    requires Inv(s) && id in s.rows && target in s.folders && !s.rooted
    ensures var t := Move(s, id, target, name, now);
            t.files == s.files && Refiled(s, t, id, target, s.rows[id].rawPath, now)
  {
    OwnPathIsFree(s, id);
  }

  /** A message whose file is there moves with it: to the directory of the target folder, under the
      same name, in `new` exactly for an unread message in Inbox. If another row of the mailbox
      carries that path, the file is moved and no row changes. */
  lemma MoveTakesTheFile(s: Store, id: nat, target: nat, name: string, now: int, p: Path)
    requires Inv(s) && target in s.folders && RenamePath(s, id)
    requires LiesIn(s, p, s.rows[id].mailbox.value, target) && p.name == s.rows[id].rawPath.value.name
    requires p.sub == New <==> IsInbox(s.folders[target].name) && !s.rows[id].read
    ensures var t := Move(s, id, target, name, now);
            && FileMoved(s, t, s.rows[id].rawPath.value, p)
            && (PathFree(s, id, p) ==> Refiled(s, t, id, target, Some(p), now))
            && (!PathFree(s, id, p) ==> t.rows == s.rows)
  {
    DirRuleExactlyWhen(s.folders[target].name, p.dir);
    assert p == MovedPath(s, s.rows[id], target);
    assert PathFree(s, id, p) <==> !PathTaken(s.rows, s.rows[id].mailbox, Some(p), id);
  }

  /** A message whose file is missing gets a new one in the directory of the target folder. */
  lemma MoveMakesAFile(s: Store, id: nat, target: nat, name: string, now: int)
    requires Inv(s) && id in s.rows && target in s.folders && NameFresh(s, name)
    requires s.rooted && s.rows[id].mailbox.Some? && !FileThere(s, s.rows[id])
    ensures var t := Move(s, id, target, name, now);
            && id in t.rows && t.rows[id].rawPath.Some?
            && var p := t.rows[id].rawPath.value;
               && MadeFor(s, s.rows[id], target, name, p) && FileMade(s, t, p, s.rows[id].mid, s.rows[id].rawPath)
               && Refiled(s, t, id, target, Some(p), now)
  {
    WriteMakesAFile(s, id, target, name, now);
  }

  /** So does a message that is written to a folder, whether it has a file or not; the old file goes. */
  lemma WriteMakesAFile(s: Store, id: nat, f: nat, name: string, now: int)
    requires Inv(s) && id in s.rows && f in s.folders && NameFresh(s, name)
    requires s.rooted && s.rows[id].mailbox.Some?
    ensures var t := WriteToFolder(s, id, f, name, now);
            && id in t.rows && t.rows[id].rawPath.Some?
            && var p := t.rows[id].rawPath.value;
               && MadeFor(s, s.rows[id], f, name, p) && FileMade(s, t, p, s.rows[id].mid, s.rows[id].rawPath)
               && Refiled(s, t, id, f, Some(p), now)
  {
    var row := s.rows[id];
    var p := NewFilePath(s, row, f, name);
    NewPathIsFresh(s, row, f, name);
    WriteShape(s, id, f, name, now, p);
    WrittenFile(s, WriteToFolder(s, id, f, name, now), p, row.mid, row.rawPath);
    NewFileLies(s, row, f, name);
  }

  lemma WrittenFile(s: Store, t: Store, p: Path, content: Mid, gone: Option<Path>)
    requires p !in s.files && t.files == RemovePath(s.files[p := content], gone) && gone != Some(p)
    ensures FileMade(s, t, p, content, gone)
  {
  }

  lemma WriteShape(s: Store, id: nat, f: nat, name: string, now: int, p: Path)
    requires Inv(s) && id in s.rows && f in s.folders && s.rooted && s.rows[id].mailbox.Some?
    requires p == NewFilePath(s, s.rows[id], f, name) && forall k :: k in s.rows ==> s.rows[k].rawPath != Some(p)
    ensures var t := WriteToFolder(s, id, f, name, now);
            && t.files == RemovePath(s.files[p := s.rows[id].mid], s.rows[id].rawPath)
            && Refiled(s, t, id, f, Some(p), now)
  {
    var row := s.rows[id];
    var b := if row.folder.Some? && row.folder.value != f then Bump(s, row.folder) else s;
    assert !PathTaken(s.rows, row.mailbox, Some(p), id);
    assert b.rows == s.rows && b.files == s.files && b.folders[f].uidNext == s.folders[f].uidNext;
  }

  /** Nothing happens to a message without a mailbox. */
  lemma MoveOfUnowned(s: Store, id: nat, target: nat, name: string, now: int)
    requires target in s.folders && s.rooted && (id in s.rows ==> s.rows[id].mailbox.None?)
    ensures Move(s, id, target, name, now) == s
  {
  }

  /** A rewrite replaces the file in the directory of the message's own folder; the message keeps its
      UID. */
  lemma RewriteMakesAFile(s: Store, id: nat, name: string, now: int)
    requires Inv(s) && id in s.rows && NameFresh(s, name)
    requires s.rooted && s.rows[id].mailbox.Some? && s.rows[id].folder.Some?
    requires s.rows[id].folder.value in s.folders
    ensures var t := Rewrite(s, id, name, now);
            && id in t.rows && t.rows[id].rawPath.Some?
            && var p := t.rows[id].rawPath.value;
               && MadeFor(s, s.rows[id], s.rows[id].folder.value, name, p)
               && FileMade(s, t, p, s.rows[id].mid, s.rows[id].rawPath) && OneRowIs(s, t, id, t.rows[id])
               && t.rows[id] == s.rows[id].(rawPath := Some(p), modseq := t.rows[id].modseq, updatedAt := now)
  {
    var row := s.rows[id];
    var p := NewFilePath(s, row, row.folder.value, name);
    NewPathIsFresh(s, row, row.folder.value, name);
    RewriteFile(s, id, name, now, p);
    WrittenFile(s, Rewrite(s, id, name, now), p, row.mid, row.rawPath);
    NewFileLies(s, row, row.folder.value, name);
  }

  lemma RewriteFile(s: Store, id: nat, name: string, now: int, p: Path)
    requires Inv(s) && id in s.rows && s.rooted && s.rows[id].mailbox.Some? && s.rows[id].folder.Some?
    requires s.rows[id].folder.value in s.folders && p == NewFilePath(s, s.rows[id], s.rows[id].folder.value, name)
    requires forall k :: k in s.rows ==> s.rows[k].rawPath != Some(p)
    ensures var t := Rewrite(s, id, name, now);
            && t.files == RemovePath(s.files[p := s.rows[id].mid], s.rows[id].rawPath)
            && id in t.rows && OneRowIs(s, t, id, t.rows[id])
            && t.rows[id] == s.rows[id].(rawPath := Some(p), modseq := t.rows[id].modseq, updatedAt := now)
  {
    assert !PathTaken(s.rows, s.rows[id].mailbox, Some(p), id);
  }

  // ---- Folders ----

  predicate Named(s: Store, f: nat, mailbox: nat, name: string) {
    f in s.folders && s.folders[f].mailbox == mailbox && Lower(s.folders[f].name) == Lower(name)
  }

  /** A folder that is there in any case is used; otherwise one folder of this name is new, with
      both counters at 1. */
  lemma FolderIsThere(s: Store, mailbox: nat, name: string)
    requires Inv(s)
    ensures var t := EnsureFolder(s, mailbox, name);
            && (exists f :: Named(t, f, mailbox, name))
            && ((exists f :: Named(s, f, mailbox, name)) ==> t == s)
            && t.rows == s.rows && t.files == s.files
            && (t != s ==> exists f: nat :: f !in s.folders && t.folders == s.folders[f := Folder(mailbox, name, 1, 1)])
  {
    var t := EnsureFolder(s, mailbox, name);
    if t != s {
      assert Named(t, s.nextId, mailbox, name) && s.nextId !in s.folders;
    } else {
      var f :| f in s.folders && s.folders[f].mailbox == mailbox && Lower(s.folders[f].name) == Lower(name);
      assert Named(t, f, mailbox, name);
    }
  }
}
