/** The message store as an object that its operations update in place, step by step as the
    server does it; each method ends in the state its specification function names. */
module MailStore {
  import opened Common
  import opened StoreModel
  import opened StoreInvariants
  import opened StoreEffects
  import opened MaildirScan
  import O = OrderBy

  class MailStore {
    const rooted: bool
    var folders: map<nat, Folder>
    var rows: map<nat, Row>
    var files: map<Path, Mid>
    var nextId: nat

    constructor (rooted: bool)
      ensures State() == Store(rooted, map[], map[], map[], 0)
    {
      this.rooted := rooted;
      folders, rows, files, nextId := map[], map[], map[], 0;
    }

    ghost function State(): Store
      reads this
    {
      Store(rooted, folders, rows, files, nextId)
    }

    // ---- Counters ----

    method NextIMAPMetadata(f: nat) returns (meta: Meta)
      requires f in folders
      modifies this`folders
      ensures State() == Allocate(old(State()), f) && meta == NextMeta(old(folders[f]))
    {
      var fld := folders[f];
      var uid := fld.uidNext;
      if uid < 1 {
        uid := 1;
      }
      var modseq := Inc64(fld.highest);
      if modseq < 1 {
        modseq := 1;
      }
      folders := folders[f := fld.(uidNext := uid + 1, highest := Max(fld.highest, modseq))];
      meta := Meta(uid, modseq);
    }

    method BumpFolderModSeq(f: Option<nat>) returns (modseq: int)
      modifies this`folders
      ensures State() == Bump(old(State()), f) && modseq == BumpResult(old(State()), f)
    {
      if f.None? || f.value !in folders {
        return 0;
      }
      var fld := folders[f.value];
      modseq := Inc64(fld.highest);
      if modseq < 1 || modseq == MAX_INT64 {
        modseq := fld.highest;
      }
      folders := folders[f.value := fld.(highest := Max(fld.highest, modseq))];
    }

    /** `UPDATE messages`, which the unique index on raw_path may refuse. */
    method UpdateRow(id: nat, row: Row) returns (ok: bool)
      modifies this`rows
      ensures ok == !PathTaken(old(rows), row.mailbox, row.rawPath, id)
      ensures rows == if ok then old(rows)[id := row] else old(rows)
    {
      ok := !PathTaken(rows, row.mailbox, row.rawPath, id);
      if ok {
        rows := rows[id := row];
      }
    }

    method PlaceRow(id: nat, f: nat, row: Row) returns (ok: bool)
      requires f in folders
      modifies this`folders, this`rows
      ensures State() == Place(old(State()), id, f, row)
      ensures ok == !PathTaken(old(rows), row.mailbox, row.rawPath, id)
    {
      var meta := NextIMAPMetadata(f);
      ok := UpdateRow(id, row.(folder := Some(f), uid := meta.uid, modseq := meta.modseq));
    }

    method StampRow(id: nat, row: Row) returns (ok: bool)
      modifies this`folders, this`rows
      ensures State() == Stamp(old(State()), id, row)
      ensures ok == !PathTaken(old(rows), row.mailbox, row.rawPath, id)
    {
      var modseq := BumpFolderModSeq(row.folder);
      ok := UpdateRow(id, row.(modseq := if modseq > 0 then modseq else row.modseq));
    }

    // ---- Messages ----

    method InsertMessage(row: Row, quotaOk: bool) returns (id: Option<nat>)
      requires row.folder.Some? ==> row.folder.value in folders
      modifies this
      ensures State() == Insert(old(State()), row, quotaOk)
      ensures id == if quotaOk && !PathTaken(old(rows), row.mailbox, row.rawPath, old(nextId)) then Some(old(nextId))
                    else None
    {
      if !quotaOk {
        return None;
      }
      var newId := nextId;
      nextId := nextId + 1;
      var ok: bool;
      if row.folder.Some? {
        ok := PlaceRow(newId, row.folder.value, row);
      } else {
        ok := UpdateRow(newId, row.(uid := 0, modseq := 1));
      }
      id := if ok then Some(newId) else None;
    }

    method UpdateMessageMaildirFlags(id: nat, read: bool, starred: bool, now: int) returns (ok: bool)
      requires id in rows
      modifies this
      ensures (State(), ok) == UpdateFileFlags(old(State()), id, read, starred, now)
    {
      var row := rows[id];
      if !rooted || row.rawPath.None? || !row.rawPath.value.Inside? || row.rawPath.value !in files {
        return true;
      }
      var target := FlaggedPath(row.rawPath.value, read, starred);
      if target == row.rawPath.value {
        return true;
      }
      files := (files - {row.rawPath.value})[target := files[row.rawPath.value]];
      ok := StampRow(id, row.(rawPath := Some(target), updatedAt := now));
    }

    method MarkRead(id: nat, read: bool, now: int)
      modifies this
      ensures State() == SetFlags(old(State()), id, read, if id in old(rows) then old(rows)[id].starred else false, now)
      ensures Inv(old(State())) ==>
                FlagsSet(old(State()), State(), id, read, if id in old(rows) then old(rows)[id].starred else false, now)
    {
      if id in rows {
        var starred := rows[id].starred;
        ghost var before := State();
        if Inv(before) { FlagsAreSet(before, id, read, starred, now); }
        var ok := UpdateMessageMaildirFlags(id, read, starred, now);
        if ok {
          ok := StampRow(id, rows[id].(read := read, starred := starred, updatedAt := now));
        }
      }
    }

    method Star(id: nat, starred: bool, now: int)
      modifies this
      ensures State() == SetFlags(old(State()), id, if id in old(rows) then old(rows)[id].read else false, starred, now)
      ensures Inv(old(State())) ==>
                FlagsSet(old(State()), State(), id, if id in old(rows) then old(rows)[id].read else false, starred, now)
    {
      if id in rows {
        var read := rows[id].read;
        ghost var before := State();
        if Inv(before) { FlagsAreSet(before, id, read, starred, now); }
        var ok := UpdateMessageMaildirFlags(id, read, starred, now);
        if ok {
          ok := StampRow(id, rows[id].(read := read, starred := starred, updatedAt := now));
        }
      }
    }

    method RemoveMaildirPath(path: Option<Path>)
      modifies this`files
      ensures files == RemovePath(old(files), path)
    {
      if path.Some? && path.value.Inside? {
        files := files - {path.value};
      }
    }

    /** The file part of `writeRawMessageToMaildirFolder`. */
    method WriteFile(row: Row, f: nat, name: string) returns (path: Path)
      requires f in folders && row.mailbox.Some?
      modifies this`files
      ensures path == NewFilePath(old(State()), row, f, name)
      ensures files == RemovePath(old(files)[path := row.mid], row.rawPath)
    {
      path := NewFilePath(Store(rooted, folders, rows, files, nextId), row, f, name);
      files := files[path := row.mid];
      RemoveMaildirPath(row.rawPath);
    }

    method WriteMessageToNewMaildirFolder(id: nat, f: nat, name: string, now: int)
      requires id in rows && f in folders
      modifies this
      ensures State() == WriteToFolder(old(State()), id, f, name, now)
    {
      if rooted {
        var row := rows[id];
        if row.folder.Some? && row.folder.value != f {
          var _ := BumpFolderModSeq(row.folder);
        }
        if row.mailbox.Some? {
          var path := WriteFile(row, f, name);
          var _ := PlaceRow(id, f, row.(rawPath := Some(path), updatedAt := now));
        }
      }
    }

    method RewriteMessageMaildir(id: nat, name: string, now: int)
      requires id in rows && (rows[id].folder.Some? ==> rows[id].folder.value in folders)
      modifies this
      ensures State() == Rewrite(old(State()), id, name, now)
    {
      var row := rows[id];
      if rooted && row.mailbox.Some? && row.folder.Some? {
        var path := WriteFile(row, row.folder.value, name);
        var _ := StampRow(id, row.(rawPath := Some(path), updatedAt := now));
      }
    }

    method MoveMessageMaildir(id: nat, target: nat, name: string, now: int)
      requires target in folders
      modifies this
      ensures State() == Move(old(State()), id, target, name, now)
    {
      if id !in rows {
        return;
      }
      var row := rows[id];
      if !rooted {
        if row.folder.Some? && row.folder.value != target {
          var _ := BumpFolderModSeq(row.folder);
        }
        var _ := PlaceRow(id, target, row.(updatedAt := now));
      } else if row.mailbox.Some? {
        if row.rawPath.None? || !row.rawPath.value.Inside? || row.rawPath.value !in files {
          WriteMessageToNewMaildirFolder(id, target, name, now);
        } else {
          var path := MovedPath(Store(rooted, folders, rows, files, nextId), row, target);
          if path != row.rawPath.value {
            files := (files - {row.rawPath.value})[path := files[row.rawPath.value]];
          }
          var _ := PlaceRow(id, target, row.(rawPath := Some(path), updatedAt := now));
        }
      }
    }

    method DeleteMessageRow(id: nat)
      requires id in rows
      modifies this`rows, this`folders
      ensures State() == DeleteRow(old(State()), id)
    {
      var f := rows[id].folder;
      rows := rows - {id};
      var _ := BumpFolderModSeq(f);
    }

    method DeleteMessage(id: nat)
      modifies this
      ensures State() == Delete(old(State()), id)
    {
      if id in rows {
        RemoveMaildirPath(rows[id].rawPath);
        DeleteMessageRow(id);
      }
    }

    // ---- Loops over messages ----

    method PlaceAgain(id: nat, f: nat, now: int)
      requires id in rows && f in folders
      modifies this`rows, this`folders
      ensures State() == PlaceInPlace(old(State()), id, f, now)
    {
      var meta := NextIMAPMetadata(f);
      rows := rows[id := rows[id].(folder := Some(f), uid := meta.uid, modseq := meta.modseq, updatedAt := now)];
    }

    method PlaceListed(ids: seq<nat>, inbox: nat, now: int)
      requires inbox in folders && forall id :: id in ids ==> id in rows
      modifies this`rows, this`folders
      ensures State() == PlaceAll(old(State()), ids, inbox, now)
    {
      ghost var before := State();
      for k := 0 to |ids|
        invariant AllIn(ids[..k], before.rows.Keys) && State() == PlaceAll(before, ids[..k], inbox, now)
      {
        PrefixGrows(ids, k);
        PlaceAllKeepsRows(before, ids[..k], inbox, now);
        PlaceAgain(ids[k], inbox, now);
      }
      assert ids[..|ids|] == ids;
    }

    method DeleteMailFolder(mailbox: nat, f: nat, inbox: nat, now: int) returns (moved: nat)
      requires inbox in folders && f in folders && f != inbox
      modifies this
      ensures State() == DeleteFolder(old(State()), mailbox, f, inbox, now)
      ensures moved == |MailboxRowsIn(old(State()), mailbox, f)|
    {
      var s := Store(rooted, folders, rows, files, nextId);
      var ids := O.SortedIds(MailboxRowsIn(s, mailbox, f), ReceivedAt(s));
      PlaceListed(ids, inbox, now);
      s := Store(rooted, folders, rows, files, nextId);
      folders, rows := folders - {f}, rows - RowsIn(s, f);
      var _ := BumpFolderModSeq(Some(inbox));
      moved := |ids|;
    }

    method NumberMessage(id: nat, f: nat)
      requires id in rows && f in folders
      modifies this`rows, this`folders
      ensures State() == NumberRow(old(State()), id, f)
    {
      var meta := NextIMAPMetadata(f);
      rows := rows[id := rows[id].(uid := meta.uid, modseq := meta.modseq)];
    }

    method NumberListed(ids: seq<nat>, f: nat)
      requires f in folders && forall id :: id in ids ==> id in rows
      modifies this`rows, this`folders
      ensures State() == NumberAll(old(State()), ids, f)
    {
      ghost var before := State();
      for k := 0 to |ids|
        invariant AllIn(ids[..k], before.rows.Keys) && State() == NumberAll(before, ids[..k], f)
      {
        PrefixGrows(ids, k);
        NumberAllKeepsRows(before, ids[..k], f);
        NumberMessage(ids[k], f);
      }
      assert ids[..|ids|] == ids;
    }

    method BackfillFolderIMAPUIDs(f: nat)
      requires f in folders
      modifies this
      ensures State() == BackfillFolder(old(State()), f)
    {
      var s := Store(rooted, folders, rows, files, nextId);
      var ids := O.SortedIds(Unnumbered(s, f), CreatedAt(s));
      NumberAllKeepsRows(s, ids, f);
      NumberListed(ids, f);
      s := Store(rooted, folders, rows, files, nextId);
      var fld := folders[f];
      folders := folders[f := fld.(uidNext := Max(fld.uidNext, MaxUid(s, RowsIn(s, f)) + 1),
                                   highest := Max(fld.highest, MaxModSeq(s, RowsIn(s, f))))];
    }

    method CleanupMissingMaildirMessages(cutoff: int)
      modifies this
      ensures State() == CleanupMissing(old(State()), cutoff)
    {
      if rooted {
        ghost var before := State();
        var s := Store(rooted, folders, rows, files, nextId);
        var ids := O.SortedIds(Missing(s, cutoff), CreatedAt(s));
        for k := 0 to |ids|
          invariant State() == DeleteAll(before, ids[..k])
        {
          assert ids[..k + 1][..k] == ids[..k];
          if ids[k] in rows {
            DeleteMessageRow(ids[k]);
          }
        }
        assert ids[..|ids|] == ids;
      }
    }

    // ---- The Maildir sync ----

    method AdoptRow(id: nat, f: nat, row: Row)
      requires id in rows && f in folders
      modifies this
      ensures State() == Adopt(old(State()), id, f, row)
    {
      if rows[id].folder != Some(f) {
        var _ := BumpFolderModSeq(rows[id].folder);
      }
      var _ := PlaceRow(id, f, row);
    }

    /** The candidate loop of `syncExistingMaildirMessageState`. */
    method ChooseCandidate(p: Path, ids: seq<nat>) returns (chosen: Option<nat>)
      requires forall id :: id in ids ==> id in rows
      ensures chosen == FirstUsable(State(), p, ids)
    {
      var s := Store(rooted, folders, rows, files, nextId);
      for k := 0 to |ids|
        invariant FirstUsable(s, p, ids) == FirstUsable(s, p, ids[k..])
      {
        if Usable(s, p, ids[k]) {
          return Some(ids[k]);
        }
        assert ids[k..][1..] == ids[k + 1..];
      }
      chosen := None;
    }

    /** A row that already carries the file's path follows its folder and flags. */
    method RefreshRow(id: nat, f: nat, p: Path, flags: (bool, bool), now: int)
      requires id in rows && f in folders
      modifies this
      ensures State() == Refresh(old(State()), id, f, p, flags, now)
    {
      var row := rows[id];
      if row.folder != Some(f) {
        AdoptRow(id, f, Found(row, p, flags, now));
      } else if (row.read, row.starred) != flags {
        var _ := StampRow(id, Found(row, p, flags, now));
      } else {
        rows := rows[id := Found(row, p, flags, now)];
      }
    }

    method RemoveDuplicateMaildirMessage(f: nat, p: Path, mid: Mid)
      requires f in folders
      modifies this
      ensures State() == RemoveDuplicate(old(State()), f, p, mid)
    {
      var s := Store(rooted, folders, rows, files, nextId);
      var twins := FiledTwins(s, f, mid);
      if twins != {} && rows[First(s, twins)].rawPath != Some(p) {
        RemoveMaildirPath(Some(p));
      }
    }

    method SyncExistingMaildirMessageState(f: nat, p: Path, mid: Mid, flags: (bool, bool),
          now: int) returns (handled: bool)
      requires f in folders
      modifies this
      ensures (State(), handled) == SyncExisting(old(State()), f, p, mid, flags, now)
    {
      var s := Store(rooted, folders, rows, files, nextId);
      var here := AtPath(s, folders[f].mailbox, p);
      if here != {} {
        RefreshRow(First(s, here), f, p, flags, now);
        return true;
      }
      var chosen := ChooseCandidate(p, Candidates(s, f, mid));
      if chosen.None? {
        RemoveDuplicateMaildirMessage(f, p, mid);
        return false;
      }
      AdoptRow(chosen.value, f, Found(rows[chosen.value], p, flags, now));
      handled := true;
    }

    method TakeNewId()
      modifies this`nextId
      ensures State() == TakeId(old(State()))
    {
      nextId := nextId + 1;
    }

    method SyncMaildirFile(f: nat, p: Path, env: Env) returns (outcome: Outcome)
      requires f in folders && p.Inside?
      modifies this
      ensures (State(), outcome) == SyncFile(old(State()), f, p, env)
    {
      if p !in files || p in env.unreadable {
        return Failed;
      }
      var s := Store(rooted, folders, rows, files, nextId);
      var mid, flags := FileMid(s, p), FlagsOnDisk(s, f, p);
      if files[p] == NO_MID {
        TakeNewId();
      }
      outcome := SyncParsedFile(f, p, mid, flags, env);
    }

    method SyncParsedFile(f: nat, p: Path, mid: Mid, flags: (bool, bool), env: Env) returns (outcome: Outcome)
      requires f in folders
      modifies this
      ensures (State(), outcome) == SyncParsed(old(State()), f, p, mid, flags, env)
    {
      var known := Known(Store(rooted, folders, rows, files, nextId), f, p, mid);
      var handled := SyncExistingMaildirMessageState(f, p, mid, flags, env.now);
      if known || handled {
        return Handled;
      }
      if p in env.overQuota {
        return Failed;
      }
      var _ := InsertMessage(NewRow(Store(rooted, folders, rows, files, nextId), f, p, mid, flags, env), true);
      outcome := Imported;
    }

    method SyncEntry(ghost before: Store, ghost work: seq<Entry>, e: Entry, env: Env, failed0: set<Path>,
          imported0: nat)
      returns (failed: set<Path>, imported: nat)
      requires AllOk(before, work + [e]) && Done(before, work, env, failed0, imported0)
      modifies this
      ensures Done(before, work + [e], env, failed, imported)
    {
      assert e in work + [e] && forall d :: d in work ==> d in work + [e];
      EntryStaysOk(before, State(), e);
      ScanOneMore(before, work, e, env);
      failed, imported := failed0, imported0;
      var outcome := SyncMaildirFile(e.folder, e.path, env);
      if outcome == Failed {
        failed := failed + {e.path};
      }
      if outcome == Imported {
        imported := imported + 1;
      }
    }

    ghost predicate Done(before: Store, work: seq<Entry>, env: Env, failed: set<Path>, imported: nat)
      reads this
    {
      AllOk(before, work) && Pass(State(), failed, imported) == ScanAll(before, work, env)
    }

    /** The file loops of `syncMaildirOnceDetailed`: `work` holds the entries in the order in which
        the loops over mailboxes, folders, new and cur, and directory entries reach them. */
    method SyncMaildirOnce(work: seq<Entry>, env: Env) returns (failed: set<Path>, imported: nat)
      requires AllOk(State(), work)
      modifies this
      ensures Done(old(State()), work, env, failed, imported)
    {
      ghost var before := State();
      failed, imported := {}, 0;
      for k := 0 to |work|
        invariant Done(before, work[..k], env, failed, imported)
      {
        AllOkPrefix(before, work, k + 1);
        failed, imported := SyncEntry(before, work[..k], work[k], env, failed, imported);
      }
      AllOkPrefix(before, work, |work|);
    }

    method BackfillSQLiteMessagesToMaildir(names: map<nat, string>, now: int) returns (count: nat)
      requires rooted
      requires forall id :: id in BackfillBatch(State()) ==> Writable(State(), id) && id in names
      modifies this
      ensures State() == BackfillAll(old(State()), BackfillBatch(old(State())), names, now)
      ensures count == |BackfillBatch(old(State()))|
    {
      var ids := BackfillBatch(Store(rooted, folders, rows, files, nextId));
      RewriteListed(ids, names, now);
      count := |ids|;
    }

    method RewriteListed(ids: seq<nat>, names: map<nat, string>, now: int)
      requires forall id :: id in ids ==> Writable(State(), id) && id in names
      modifies this
      ensures State() == BackfillAll(old(State()), ids, names, now)
    {
      ghost var before := State();
      for k := 0 to |ids|
        invariant Rewritten(before, ids[..k], names, now)
      {
        PrefixGrows(ids, k);
        WritableStays(before, State(), ids[k]);
        RewriteMessageMaildir(ids[k], names[ids[k]], now);
      }
      assert ids[..|ids|] == ids;
    }

    ghost predicate Rewritten(before: Store, ids: seq<nat>, names: map<nat, string>, now: int)
      reads this
    {
      && (forall id :: id in ids ==> Writable(before, id) && id in names)
      && State() == BackfillAll(before, ids, names, now)
    }
  }

  ghost predicate AllIn(ids: seq<nat>, all: set<nat>) {
    forall id :: id in ids ==> id in all
  }

  lemma PrefixGrows(ids: seq<nat>, k: nat)
    requires k < |ids|
    ensures ids[k] in ids && ids[..k + 1][..k] == ids[..k] && ids[..k + 1] == ids[..k] + [ids[k]]
    ensures forall id :: id in ids[..k + 1] ==> id in ids
  {
  }

  ghost predicate AllOk(s: Store, work: seq<Entry>) {
    forall e :: e in work ==> EntryOk(s, e)
  }

  lemma AllOkPrefix(s: Store, work: seq<Entry>, n: nat)
    requires AllOk(s, work) && n <= |work|
    ensures AllOk(s, work[..n]) && (n > 0 ==> work[..n] == work[..n - 1] + [work[n - 1]])
    ensures (n == |work| ==> work[..n] == work)
  {
    assert forall e :: e in work[..n] ==> e in work;
  }

  lemma ScanOneMore(s: Store, work: seq<Entry>, e: Entry, env: Env)
    requires (forall d :: d in work ==> EntryOk(s, d)) && EntryOk(s, e) && EntryOk(ScanAll(s, work, env).store, e)
    ensures forall d :: d in work + [e] ==> EntryOk(s, d)
    ensures ScanAll(s, work + [e], env) == ScanEntry(ScanAll(s, work, env), e, env)
  {
    assert (work + [e])[..|work|] == work;
  }
}
