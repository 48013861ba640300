/** The basic steps of the store keep its invariant and evolve it. */
module StoreSteps {
  import opened Common
  import opened StoreModel
  import opened StoreInvariants

  // ---- Steps that touch one row ----

  ghost predicate OnlyRow(s: Store, t: Store, id: nat) {
    && t.folders.Keys == s.folders.Keys && CountersGrow(s, t) && FoldersOk(t)
    && t.rows.Keys - {id} == s.rows.Keys - {id}
    && (forall k :: k in s.rows && k != id ==> k in t.rows && t.rows[k] == s.rows[k])
  }

  /** The touched row is fine in the new state and clashes with no other row. */
  ghost predicate RowFits(s: Store, t: Store, id: nat) {
    id in t.rows ==>
      && RowOk(t, id, t.rows[id])
      && (forall k :: k in s.rows && k != id && SharesFolder(s.rows[k], t.rows[id]) && t.rows[id].uid > 0 ==>
            s.rows[k].uid != t.rows[id].uid)
      && !PathTaken(s.rows, t.rows[id].mailbox, t.rows[id].rawPath, id)
  }

  ghost predicate RowEvolves(s: Store, t: Store, id: nat) {
    id in t.rows && t.rows[id].folder.Some? && t.rows[id].folder.value in s.folders ==>
      var f := t.rows[id].folder.value;
      && (0 < t.rows[id].uid < s.folders[f].uidNext ==> InFolder(s, id, f) && s.rows[id].uid == t.rows[id].uid)
      && (Headroom(t, f) ==> Stamped(s, t, id, f))
  }

  lemma OneRowInv(s: Store, t: Store, id: nat)
    requires Inv(s) && OnlyRow(s, t, id) && RowFits(s, t, id)
    ensures Inv(t)
  {
    forall k | k in t.rows ensures RowOk(t, k, t.rows[k]) {
      if k != id {
        assert k in s.rows.Keys - {id};
        assert RowOk(s, k, s.rows[k]);
      }
    }
    forall k | k in t.rows && k != id ensures k in s.rows {
      assert k in t.rows.Keys - {id};
    }
  }

  lemma OneRowEvolves(s: Store, t: Store, id: nat)
    requires Inv(s) && OnlyRow(s, t, id) && RowEvolves(s, t, id)
    ensures Evolves(s, t)
  {
    forall k | k in t.rows && k != id ensures k in s.rows {
      assert k in t.rows.Keys - {id};
    }
  }

  lemma OneRowAnnounced(s: Store, t: Store, id: nat)
    requires OnlyRow(s, t, id)
    ensures forall g :: (InFolder(s, id, g) && !InFolder(t, id, g) && Headroom(t, g) ==>
                           s.folders[g].highest < t.folders[g].highest) ==> Announced(s, t, g)
  {
  }

  /** A step that touches one row, done right. */
  lemma OneRow(s: Store, t: Store, id: nat)
    requires Inv(s) && OnlyRow(s, t, id) && RowFits(s, t, id) && RowEvolves(s, t, id)
    ensures Inv(t) && Evolves(s, t)
    ensures forall g :: (InFolder(s, id, g) && !InFolder(t, id, g) && Headroom(t, g) ==>
                           s.folders[g].highest < t.folders[g].highest) ==> Announced(s, t, g)
  {
    OneRowInv(s, t, id);
    OneRowEvolves(s, t, id);
    OneRowAnnounced(s, t, id);
  }

  lemma AllocateCounters(s: Store, f: nat)
    requires Inv(s) && f in s.folders
    ensures var t := Allocate(s, f);
            CountersGrow(s, t) && FoldersOk(t) && t.folders.Keys == s.folders.Keys
    ensures var m, u := NextMeta(s.folders[f]), Allocate(s, f).folders[f];
            && s.folders[f].uidNext == m.uid && u.uidNext == m.uid + 1 && m.modseq <= u.highest
            && (Headroom(Allocate(s, f), f) ==> m.modseq == s.folders[f].highest + 1)
  {
  }

  lemma BumpCounters(s: Store, f: Option<nat>)
    requires Inv(s)
    ensures var t := Bump(s, f);
            CountersGrow(s, t) && FoldersOk(t) && t.folders.Keys == s.folders.Keys && t.rows == s.rows
    ensures f.Some? && f.value in s.folders ==>
              var u := Bump(s, f).folders[f.value];
              && 1 <= BumpResult(s, f) <= u.highest && s.folders[f.value].highest <= BumpResult(s, f)
              && (Headroom(Bump(s, f), f.value) ==> BumpResult(s, f) == u.highest == s.folders[f.value].highest + 1)
  {
  }

  lemma PlaceKeeps(s: Store, id: nat, f: nat, row: Row)
    requires Inv(s) && f in s.folders && id < s.nextId
    requires row.mailbox == Some(s.folders[f].mailbox) && PathOwned(row)
    ensures Inv(Place(s, id, f, row)) && Evolves(s, Place(s, id, f, row))
    ensures forall g :: !(InFolder(s, id, g) && g != f) ==> Announced(s, Place(s, id, f, row), g)
  {
    var t := Place(s, id, f, row);
    AllocateCounters(s, f);
    if PathTaken(s.rows, row.mailbox, row.rawPath, id) {
      OneRow(s, t, s.nextId) by { NoNextRow(s); }
    } else {
      assert RowFits(s, t, id) by { UidsBelow(s, f); }
      OneRow(s, t, id);
    }
  }

  lemma NoNextRow(s: Store)
    requires Inv(s)
    ensures s.nextId !in s.rows
  {
    assert forall id :: id in s.rows ==> RowOk(s, id, s.rows[id]);
  }

  lemma UidsBelow(s: Store, f: nat)
    requires Inv(s) && f in s.folders
    ensures forall k :: k in s.rows && s.rows[k].folder == Some(f) ==> s.rows[k].uid < s.folders[f].uidNext
  {
    forall k | k in s.rows && s.rows[k].folder == Some(f) ensures s.rows[k].uid < s.folders[f].uidNext {
      assert RowOk(s, k, s.rows[k]);
    }
  }

  lemma StampKeeps(s: Store, id: nat, row: Row)
    requires Inv(s) && id in s.rows && PathOwned(row)
    requires row.mailbox == s.rows[id].mailbox && row.folder == s.rows[id].folder
    requires row.uid == s.rows[id].uid && row.modseq == s.rows[id].modseq
    ensures Inv(Stamp(s, id, row)) && Evolves(s, Stamp(s, id, row))
    ensures forall g :: Announced(s, Stamp(s, id, row), g)
  {
    var t := Stamp(s, id, row);
    assert RowOk(s, id, s.rows[id]);
    if PathTaken(s.rows, row.mailbox, row.rawPath, id) {
      BumpKeeps(s, row.folder);
    } else {
      BumpCounters(s, row.folder);
      assert RowFits(s, t, id) by { StampFits(s, id, row); }
      assert RowEvolves(s, t, id);
      OneRow(s, t, id);
    }
  }

  lemma StampFits(s: Store, id: nat, row: Row)
    requires Inv(s) && id in s.rows && PathOwned(row) && !PathTaken(s.rows, row.mailbox, row.rawPath, id)
    requires row.mailbox == s.rows[id].mailbox && row.folder == s.rows[id].folder && row.uid == s.rows[id].uid
    ensures RowFits(s, Stamp(s, id, row), id)
  {
    BumpCounters(s, row.folder);
    assert RowOk(s, id, s.rows[id]);
  }

  lemma BumpKeeps(s: Store, f: Option<nat>)
    requires Inv(s)
    ensures Inv(Bump(s, f)) && Evolves(s, Bump(s, f))
    ensures forall g :: Announced(s, Bump(s, f), g)
    ensures f.Some? && f.value in s.folders && Headroom(Bump(s, f), f.value) ==>
              Bump(s, f).folders[f.value].highest == s.folders[f.value].highest + 1
  {
    BumpCounters(s, f);
    NoNextRow(s);
    OneRow(s, Bump(s, f), s.nextId);
  }

  lemma FilesKeep(s: Store, files: map<Path, Mid>)
    requires Inv(s)
    ensures Inv(s.(files := files)) && Evolves(s, s.(files := files))
    ensures forall g :: Announced(s, s.(files := files), g)
  {
    NoNextRow(s);
    OneRow(s, s.(files := files), s.nextId);
  }

  lemma TakeIdKeeps(s: Store)
    requires Inv(s)
    ensures Inv(TakeId(s)) && Evolves(s, TakeId(s))
    ensures forall g :: Announced(s, TakeId(s), g)
  {
    NoNextRow(s);
    OneRow(s, TakeId(s), s.nextId);
  }

  lemma DeleteRowKeeps(s: Store, id: nat)
    requires Inv(s) && id in s.rows
    ensures Inv(DeleteRow(s, id)) && Evolves(s, DeleteRow(s, id))
    ensures forall g :: Announced(s, DeleteRow(s, id), g)
  {
    var s1 := s.(rows := s.rows - {id});
    assert RowOk(s, id, s.rows[id]);
    OneRow(s, s1, id);
    BumpCounters(s1, s.rows[id].folder);
    OneRow(s, DeleteRow(s, id), id);
  }

  lemma EnsureFolderKeeps(s: Store, mailbox: nat, name: string)
    requires Inv(s)
    ensures Inv(EnsureFolder(s, mailbox, name)) && Evolves(s, EnsureFolder(s, mailbox, name))
    ensures forall g :: Announced(s, EnsureFolder(s, mailbox, name), g)
  {
    var t := EnsureFolder(s, mailbox, name);
    EvolvesReflexive(s);
    if t != s {
      NewFolderKeeps(s, Folder(mailbox, name, 1, 1));
    }
  }

  lemma NewFolderKeeps(s: Store, fld: Folder)
    requires Inv(s) && fld.uidNext == fld.highest == 1
    ensures var t := s.(folders := s.folders[s.nextId := fld], nextId := s.nextId + 1);
            Inv(t) && Evolves(s, t) && forall g :: Announced(s, t, g)
  {
    var t := s.(folders := s.folders[s.nextId := fld], nextId := s.nextId + 1);
    forall k | k in t.rows ensures RowOk(t, k, t.rows[k]) {
      assert RowOk(s, k, s.rows[k]);
    }
  }

  lemma DropFolderKeeps(s: Store, f: nat)
    requires Inv(s) && RowsIn(s, f) == {}
    ensures Inv(DropFolder(s, f)) && Evolves(s, DropFolder(s, f)) && DropFolder(s, f).rows == s.rows
    ensures forall g :: Announced(s, DropFolder(s, f), g)
  {
    var t := DropFolder(s, f);
    assert t.rows == s.rows;
    forall k | k in t.rows ensures RowOk(t, k, t.rows[k]) {
      assert RowOk(s, k, s.rows[k]);
      assert k !in RowsIn(s, f);
    }
  }

  lemma AnnouncedTransitive(s: Store, t: Store, u: Store, f: nat)
    requires Inv(s) && Inv(t) && Inv(u) && Evolves(s, t) && Evolves(t, u)
    requires Announced(s, t, f) && Announced(t, u, f)
    ensures Announced(s, u, f)
  {
    if f in s.folders && Headroom(u, f) {
      assert f in t.folders;
      forall id | InFolder(s, id, f) && !InFolder(u, id, f) ensures s.folders[f].highest < u.folders[f].highest {
        assert !InFolder(t, id, f) || InFolder(t, id, f);
      }
    }
  }

  /** Two kept steps in a row. */
  lemma Then(s: Store, t: Store, u: Store)
    requires Inv(s) && Inv(t) && Inv(u) && Evolves(s, t) && Evolves(t, u)
    ensures Evolves(s, u)
    ensures forall g :: Announced(s, t, g) && Announced(t, u, g) ==> Announced(s, u, g)
  {
    EvolvesTransitive(s, t, u);
    forall g | Announced(s, t, g) && Announced(t, u, g) ensures Announced(s, u, g) {
      AnnouncedTransitive(s, t, u, g);
    }
  }

  // ---- Operations ----

  /** A message without a folder, as for unregistered recipients. */
  lemma InsertLooseKeeps(s: Store, id: nat, row: Row)
    requires Inv(s) && id < s.nextId && id !in s.rows && PathOwned(row) && row.folder.None?
    requires !PathTaken(s.rows, row.mailbox, row.rawPath, id)
    ensures var t := s.(rows := s.rows[id := row.(uid := 0, modseq := 1)]);
            Inv(t) && Evolves(s, t) && forall g :: Announced(s, t, g)
  {
    var t := s.(rows := s.rows[id := row.(uid := 0, modseq := 1)]);
    OneRow(s, t, id);
  }

  lemma InsertLoose(s: Store, s1: Store, row: Row)
    requires Inv(s) && PathOwned(row) && row.folder.None? && s1 == TakeId(s)
    ensures var t := if PathTaken(s.rows, row.mailbox, row.rawPath, s.nextId) then s1
                     else s1.(rows := s.rows[s.nextId := row.(uid := 0, modseq := 1)]);
            Inv(t) && Evolves(s, t) && forall g :: Announced(s, t, g)
  {
    TakeIdKeeps(s);
    if !PathTaken(s.rows, row.mailbox, row.rawPath, s.nextId) {
      NoNextRow(s);
      InsertLooseKeeps(s1, s.nextId, row);
      Then(s, s1, s1.(rows := s.rows[s.nextId := row.(uid := 0, modseq := 1)]));
    }
  }

  lemma InsertFiledKeeps(s: Store, row: Row)
    requires Inv(s) && PathOwned(row)
    requires row.folder.Some? && row.folder.value in s.folders
    requires row.mailbox == Some(s.folders[row.folder.value].mailbox)
    ensures Inv(Insert(s, row, true)) && Evolves(s, Insert(s, row, true))
    ensures forall g :: Announced(s, Insert(s, row, true), g)
  {
    InsertPlaced(s, TakeId(s), row.folder.value, row);
  }

  lemma InsertPlaced(s: Store, s1: Store, f: nat, row: Row)
    requires Inv(s) && PathOwned(row) && f in s.folders && row.mailbox == Some(s.folders[f].mailbox)
    requires s1 == TakeId(s)
    ensures Inv(Place(s1, s.nextId, f, row)) && Evolves(s, Place(s1, s.nextId, f, row))
    ensures forall g :: Announced(s, Place(s1, s.nextId, f, row), g)
  {
    TakeIdKeeps(s);
    NoNextRow(s);
    PlaceNewKeeps(s1, s.nextId, f, row);
    Then(s, s1, Place(s1, s.nextId, f, row));
  }

  lemma PlaceNewKeeps(s: Store, id: nat, f: nat, row: Row)
    requires Inv(s) && f in s.folders && id < s.nextId && id !in s.rows
    requires row.mailbox == Some(s.folders[f].mailbox) && PathOwned(row)
    ensures Inv(Place(s, id, f, row)) && Evolves(s, Place(s, id, f, row))
    ensures forall g :: Announced(s, Place(s, id, f, row), g)
  {
    PlaceKeeps(s, id, f, row);
  }

  lemma InsertKeeps(s: Store, row: Row, quotaOk: bool)
    requires Inv(s) && PathOwned(row)
    requires row.folder.Some? ==>
              row.folder.value in s.folders && row.mailbox == Some(s.folders[row.folder.value].mailbox)
    ensures Inv(Insert(s, row, quotaOk)) && Evolves(s, Insert(s, row, quotaOk))
    ensures forall g :: Announced(s, Insert(s, row, quotaOk), g)
  {
    if !quotaOk {
      EvolvesReflexive(s);
    } else if row.folder.Some? {
      InsertFiledKeeps(s, row);
    } else {
      InsertLoose(s, TakeId(s), row);
    }
  }

  lemma UpdateFileFlagsKeeps(s: Store, id: nat, read: bool, starred: bool, now: int)
    requires Inv(s) && id in s.rows
    ensures var t := UpdateFileFlags(s, id, read, starred, now).0;
            Inv(t) && Evolves(s, t) && t.rows.Keys == s.rows.Keys && (forall g :: Announced(s, t, g))
  {
    EvolvesReflexive(s);
    var row := s.rows[id];
    if s.rooted && FileThere(s, row) {
      var target := FlaggedPath(row.rawPath.value, read, starred);
      if target != row.rawPath.value {
        assert RowOk(s, id, row);
        if row.mailbox.Some? {
          RefileKeeps(s, id, target, Rename(s.files, row.rawPath.value, target), now);
        } else {
          var files := Rename(s.files, row.rawPath.value, target);
          FilesKeep(s, files);
          StampKeeps(s.(files := files), id, row.(rawPath := Some(target), updatedAt := now));
          Then(s, s.(files := files), Stamp(s.(files := files), id, row.(rawPath := Some(target), updatedAt := now)));
        }
      }
    }
  }

  lemma SetFlagsKeeps(s: Store, id: nat, read: bool, starred: bool, now: int)
    requires Inv(s)
    ensures Inv(SetFlags(s, id, read, starred, now)) && Evolves(s, SetFlags(s, id, read, starred, now))
    ensures forall g :: Announced(s, SetFlags(s, id, read, starred, now), g)
  {
    EvolvesReflexive(s);
    if id in s.rows {
      UpdateFileFlagsKeeps(s, id, read, starred, now);
      var (s1, ok) := UpdateFileFlags(s, id, read, starred, now);
      if ok {
        assert RowOk(s1, id, s1.rows[id]);
        var row := s1.rows[id].(read := read, starred := starred, updatedAt := now);
        StampKeeps(s1, id, row);
        Then(s, s1, Stamp(s1, id, row));
      }
    }
  }

  /** Bumping the folder a message is about to leave announces its departure. */
  lemma BumpThenPlaceKeeps(s: Store, t: Store, id: nat, f: nat, row: Row)
    requires Inv(s) && id in s.rows && f in s.folders
    requires t == if s.rows[id].folder != Some(f) then Bump(s, s.rows[id].folder) else s
    requires row.mailbox == Some(s.folders[f].mailbox) && PathOwned(row)
    ensures Inv(Place(t, id, f, row)) && Evolves(s, Place(t, id, f, row))
    ensures forall g :: Announced(s, Place(t, id, f, row), g)
  {
    EvolvesReflexive(s);
    assert RowOk(s, id, s.rows[id]);
    BumpKeeps(s, s.rows[id].folder);
    PlaceKeeps(t, id, f, row);
    var u := Place(t, id, f, row);
    Then(s, t, u);
    forall g | InFolder(s, id, g) && g != f ensures Announced(s, u, g) {
      if Headroom(u, g) {
        assert t.folders[g].highest <= u.folders[g].highest;
      }
    }
  }

  lemma WriteToFolderKeeps(s: Store, id: nat, f: nat, name: string, now: int)
    requires Inv(s) && id in s.rows && f in s.folders
    requires s.rows[id].mailbox.Some? ==> s.rows[id].mailbox == Some(s.folders[f].mailbox)
    ensures Inv(WriteToFolder(s, id, f, name, now)) && Evolves(s, WriteToFolder(s, id, f, name, now))
    ensures forall g :: Announced(s, WriteToFolder(s, id, f, name, now), g)
  {
    EvolvesReflexive(s);
    var row := s.rows[id];
    assert RowOk(s, id, row);
    if s.rooted {
      BumpKeeps(s, row.folder);
      if row.mailbox.Some? {
        var path := NewFilePath(s, row, f, name);
        WriteThenPlaceKeeps(s, id, f, path, RemovePath(s.files[path := row.mid], row.rawPath), now);
      }
    }
  }

  lemma WriteThenPlaceKeeps(s: Store, id: nat, f: nat, path: Path, files: map<Path, Mid>, now: int)
    requires Inv(s) && id in s.rows && f in s.folders && path.Inside?
    requires s.rows[id].mailbox == Some(path.mailbox) == Some(s.folders[f].mailbox)
    ensures var t := if s.rows[id].folder != Some(f) then Bump(s, s.rows[id].folder) else s;
            var u := Place(t.(files := files), id, f, s.rows[id].(rawPath := Some(path), updatedAt := now));
            Inv(u) && Evolves(s, u) && forall g :: Announced(s, u, g)
  {
    var row := s.rows[id].(rawPath := Some(path), updatedAt := now);
    var s0 := s.(files := files);
    var s1 := if row.folder != Some(f) then Bump(s0, row.folder) else s0;
    FilesKeep(s, files);
    BumpThenPlaceKeeps(s0, s1, id, f, row);
    Then(s, s0, Place(s1, id, f, row));
    FilesAndBump(s, files, row.folder);
  }

  lemma FilesAndBump(s: Store, files: map<Path, Mid>, f: Option<nat>)
    ensures Bump(s.(files := files), f) == Bump(s, f).(files := files)
  {
  }

  lemma RewriteKeeps(s: Store, id: nat, name: string, now: int)
    requires Inv(s) && id in s.rows
    requires s.rows[id].folder.Some? ==> s.rows[id].folder.value in s.folders
    ensures Inv(Rewrite(s, id, name, now)) && Evolves(s, Rewrite(s, id, name, now))
    ensures forall g :: Announced(s, Rewrite(s, id, name, now), g)
  {
    EvolvesReflexive(s);
    var row := s.rows[id];
    if s.rooted && row.mailbox.Some? && row.folder.Some? {
      var path := NewFilePath(s, row, row.folder.value, name);
      RefileKeeps(s, id, path, RemovePath(s.files[path := row.mid], row.rawPath), now);
    }
  }

  /** New files on disk, and one row moved to a new path of its mailbox. */
  lemma RefileKeeps(s: Store, id: nat, path: Path, files: map<Path, Mid>, now: int)
    requires Inv(s) && id in s.rows && path.Inside? && s.rows[id].mailbox == Some(path.mailbox)
    ensures var t := Stamp(s.(files := files), id, s.rows[id].(rawPath := Some(path), updatedAt := now));
            Inv(t) && Evolves(s, t) && forall g :: Announced(s, t, g)
  {
    var s1 := s.(files := files);
    FilesKeep(s, files);
    var row := s.rows[id].(rawPath := Some(path), updatedAt := now);
    StampKeeps(s1, id, row);
    Then(s, s1, Stamp(s1, id, row));
  }

  /** A move keeps everything; only on the rename path does the source folder stay silent. */
  lemma MoveKeeps(s: Store, id: nat, target: nat, name: string, now: int)
    requires Inv(s) && target in s.folders
    requires id in s.rows && s.rows[id].mailbox.Some? ==> s.rows[id].mailbox == Some(s.folders[target].mailbox)
    requires id in s.rows && !s.rooted ==> s.rows[id].mailbox.Some?
    ensures Inv(Move(s, id, target, name, now)) && Evolves(s, Move(s, id, target, name, now))
    ensures forall g :: !(RenamePath(s, id) && InFolder(s, id, g) && g != target) ==>
                          Announced(s, Move(s, id, target, name, now), g)
  {
    EvolvesReflexive(s);
    if id in s.rows {
      var row := s.rows[id];
      assert RowOk(s, id, row);
      if !s.rooted {
        var s1 := if row.folder != Some(target) then Bump(s, row.folder) else s;
        BumpThenPlaceKeeps(s, s1, id, target, row.(updatedAt := now));
      } else if row.mailbox.Some? {
        if !FileThere(s, row) {
          WriteToFolderKeeps(s, id, target, name, now);
        } else {
          RenameThenPlaceKeeps(s, id, target, MovedPath(s, row, target), now);
        }
      }
    }
  }

  lemma RenameThenPlaceKeeps(s: Store, id: nat, target: nat, path: Path, now: int)
    requires Inv(s) && target in s.folders && id in s.rows && FileThere(s, s.rows[id]) && path.Inside?
    requires s.rows[id].mailbox == Some(path.mailbox) == Some(s.folders[target].mailbox)
    ensures var s1 := s.(files := Rename(s.files, s.rows[id].rawPath.value, path));
            var t := Place(s1, id, target, s.rows[id].(rawPath := Some(path), updatedAt := now));
            Inv(t) && Evolves(s, t) && forall g :: !(InFolder(s, id, g) && g != target) ==> Announced(s, t, g)
  {
    var s1 := s.(files := Rename(s.files, s.rows[id].rawPath.value, path));
    FilesKeep(s, s1.files);
    var row := s.rows[id].(rawPath := Some(path), updatedAt := now);
    PlaceKeeps(s1, id, target, row);
    Then(s, s1, Place(s1, id, target, row));
  }

  /** On the rename path a message leaves its folder without any trace in that folder's
      counters: a client watching the highest mod-sequence is not told. */
  lemma RenameMoveIsSilent(s: Store, id: nat, target: nat, name: string, now: int, source: nat)
    requires Inv(s) && target in s.folders && source != target && InFolder(s, id, source) && RenamePath(s, id)
    ensures Move(s, id, target, name, now).folders[source] == s.folders[source]
    ensures var path := Some(MovedPath(s, s.rows[id], target));
            Headroom(s, source) && !PathTaken(s.rows, s.rows[id].mailbox, path, id) ==>
              !Announced(s, Move(s, id, target, name, now), source)
  {
    var t := Move(s, id, target, name, now);
    assert RowOk(s, id, s.rows[id]);
    if !PathTaken(s.rows, s.rows[id].mailbox, Some(MovedPath(s, s.rows[id], target)), id) {
      assert InFolder(s, id, source) && !InFolder(t, id, source);
    }
  }

  /** Such a move, in a store like any the server leaves: a message with its file goes from Inbox to
      Archive, and Inbox still has the highest mod-sequence it had. */
  lemma SilentMoveHappens(name: string, now: int)
    ensures var path := Inside(0, "", Cur, "a");
            var row := Row(Some(0), Some(0), Header("m"), Some(path), true, false, 1, 1, 0, 0, 0);
            var s := Store(true, map[0 := Folder(0, "Inbox", 2, 1), 1 := Folder(0, "Archive", 1, 1)], map[7 := row],
                           map[path := Header("m")], 8);
            var t := Move(s, 7, 1, name, now);
            && Inv(s) && InFolder(s, 7, 0) && !InFolder(t, 7, 0) && InFolder(t, 7, 1)
            && t.folders[0].highest == s.folders[0].highest && Headroom(t, 0) && !Announced(s, t, 0)
  {
    var path := Inside(0, "", Cur, "a");
    var row := Row(Some(0), Some(0), Header("m"), Some(path), true, false, 1, 1, 0, 0, 0);
    var s := Store(true, map[0 := Folder(0, "Inbox", 2, 1), 1 := Folder(0, "Archive", 1, 1)], map[7 := row],
                   map[path := Header("m")], 8);
    RenameMoveIsSilent(s, 7, 1, name, now, 0);
  }

  /** Of the messages that a move does take out of a folder, the folder's highest mod-sequence
      tells exactly when the move did not go by renaming the file. */
  lemma MoveAnnouncedExactlyWhen(s: Store, id: nat, target: nat, name: string, now: int, source: nat)
    requires Inv(s) && target in s.folders && source != target && InFolder(s, id, source)
    requires s.rows[id].mailbox == Some(s.folders[target].mailbox)
    requires var t := Move(s, id, target, name, now); !InFolder(t, id, source) && Headroom(t, source)
    ensures s.folders[source].highest < Move(s, id, target, name, now).folders[source].highest <==> !RenamePath(s, id)
  {
    MoveKeeps(s, id, target, name, now);
    assert RowOk(s, id, s.rows[id]);
    if RenamePath(s, id) {
      RenameMoveIsSilent(s, id, target, name, now, source);
    } else {
      assert Announced(s, Move(s, id, target, name, now), source);
    }
  }

  /** A bump raises the highest mod-sequence exactly below the point where it saturates. */
  lemma BumpRaisesExactlyWhen(s: Store, f: nat)
    requires FoldersOk(s) && f in s.folders
    ensures s.folders[f].highest < Bump(s, Some(f)).folders[f].highest <==> Headroom(s, f)
  {
  }

  lemma DeleteKeeps(s: Store, id: nat)
    requires Inv(s)
    ensures Inv(Delete(s, id)) && Evolves(s, Delete(s, id))
    ensures forall g :: Announced(s, Delete(s, id), g)
  {
    EvolvesReflexive(s);
    if id in s.rows {
      var s1 := s.(files := RemovePath(s.files, s.rows[id].rawPath));
      FilesKeep(s, s1.files);
      DeleteRowKeeps(s1, id);
      Then(s, s1, DeleteRow(s1, id));
    }
  }

  lemma DeleteAllKeeps(s: Store, ids: seq<nat>)
    requires Inv(s)
    ensures Inv(DeleteAll(s, ids)) && Evolves(s, DeleteAll(s, ids))
    ensures forall g :: Announced(s, DeleteAll(s, ids), g)
    decreases |ids|
  {
    EvolvesReflexive(s);
    if ids != [] {
      var before := DeleteAll(s, ids[..|ids| - 1]);
      DeleteAllKeeps(s, ids[..|ids| - 1]);
      if ids[|ids| - 1] in before.rows {
        DeleteRowKeeps(before, ids[|ids| - 1]);
        Then(s, before, DeleteRow(before, ids[|ids| - 1]));
      }
    }
  }

  lemma CleanupKeeps(s: Store, cutoff: int)
    requires Inv(s)
    ensures Inv(CleanupMissing(s, cutoff)) && Evolves(s, CleanupMissing(s, cutoff))
    ensures forall g :: Announced(s, CleanupMissing(s, cutoff), g)
  {
    EvolvesReflexive(s);
    if s.rooted {
      DeleteAllKeeps(s, O.SortedIds(Missing(s, cutoff), CreatedAt(s)));
    }
  }
}
