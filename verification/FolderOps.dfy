/** Deleting a folder moves its mail to Inbox and loses none of it; the UID backfill numbers the
    unnumbered messages of a folder, and when the numbers it hands out are unique. */
module FolderOps {
  import opened Common
  import opened StoreModel
  import opened StoreInvariants
  import opened StoreSteps
  import O = OrderBy

  // ---- What the loops compute ----

  /** Only the folder, the UID, the mod-sequence and the update time changed. */
  predicate RowMoved(before: Row, after: Row, inbox: nat, uid: int, now: int) {
    after == before.(folder := Some(inbox), uid := uid, modseq := after.modseq, updatedAt := now)
  }

  predicate RowNumbered(before: Row, after: Row, uid: int) {
    after == before.(uid := uid, modseq := after.modseq)
  }

  /** The listed messages stand in `inbox` under consecutive UIDs, in list order; nothing else
      of the rows and folders changed but Inbox's counters. */
  ghost predicate Moved(s: Store, t: Store, ids: seq<nat>, inbox: nat, now: int)
    requires inbox in s.folders
  {
    && t.rows.Keys == s.rows.Keys && t.folders.Keys == s.folders.Keys
    && t.files == s.files
    && (forall g :: g in s.folders && g != inbox ==> t.folders[g] == s.folders[g])
    && t.folders[inbox].mailbox == s.folders[inbox].mailbox
    && t.folders[inbox].uidNext == s.folders[inbox].uidNext + |ids|
    && (forall id :: id in s.rows && id !in ids ==> t.rows[id] == s.rows[id])
    && (forall k :: 0 <= k < |ids| ==>
          ids[k] in s.rows && RowMoved(s.rows[ids[k]], t.rows[ids[k]], inbox, s.folders[inbox].uidNext + k, now))
  }

  lemma {:induction false} PlaceAllMoves(s: Store, ids: seq<nat>, inbox: nat, now: int)
    requires inbox in s.folders && s.folders[inbox].uidNext >= 1
    requires Distinct(ids) && forall id :: id in ids ==> id in s.rows
    ensures Moved(s, PlaceAll(s, ids, inbox, now), ids, inbox, now)
    decreases |ids|
  {
    if ids != [] {
      var n := |ids| - 1;
      var front := ids[..n];
      assert forall id :: id in front ==> id in ids;
      PlaceAllMoves(s, front, inbox, now);
      assert ids == front + [ids[n]];
      assert ids[n] !in front;
      OneMoreMoved(s, PlaceAll(s, front, inbox, now), front, ids[n], inbox, now);
    }
  }

  lemma OneMoreMoved(s: Store, b: Store, front: seq<nat>, id: nat, inbox: nat, now: int)
    requires inbox in s.folders && s.folders[inbox].uidNext >= 1 && id in s.rows && id !in front
    requires Moved(s, b, front, inbox, now)
    ensures Moved(s, PlaceInPlace(b, id, inbox, now), front + [id], inbox, now)
  {
    var t, ids := PlaceInPlace(b, id, inbox, now), front + [id];
    assert b.rows[id] == s.rows[id];
    forall k | 0 <= k < |ids|
      ensures ids[k] in s.rows && RowMoved(s.rows[ids[k]], t.rows[ids[k]], inbox, s.folders[inbox].uidNext + k, now)
    {
      if k < |front| { assert ids[k] == front[k]; }
    }
  }

  /** The listed messages of folder `f` are numbered from its `uid_next` on, in list order. */
  ghost predicate Numbered(s: Store, t: Store, ids: seq<nat>, f: nat)
    requires f in s.folders
  {
    && t.rows.Keys == s.rows.Keys && t.folders.Keys == s.folders.Keys
    && t.files == s.files
    && (forall g :: g in s.folders && g != f ==> t.folders[g] == s.folders[g])
    && s.folders[f].uidNext + |ids| <= t.folders[f].uidNext
    && (forall id :: id in s.rows && id !in ids ==> t.rows[id] == s.rows[id])
    && (forall k :: 0 <= k < |ids| ==>
          ids[k] in s.rows && RowNumbered(s.rows[ids[k]], t.rows[ids[k]], s.folders[f].uidNext + k))
  }

  lemma {:induction false} NumberAllNumbers(s: Store, ids: seq<nat>, f: nat)
    requires f in s.folders && s.folders[f].uidNext >= 1
    requires Distinct(ids) && forall id :: id in ids ==> id in s.rows
    ensures Numbered(s, NumberAll(s, ids, f), ids, f)
    ensures NumberAll(s, ids, f).folders[f].uidNext == s.folders[f].uidNext + |ids|
    decreases |ids|
  {
    if ids != [] {
      var n := |ids| - 1;
      var front := ids[..n];
      assert forall id :: id in front ==> id in ids;
      NumberAllNumbers(s, front, f);
      assert ids == front + [ids[n]];
      assert ids[n] !in front;
      OneMoreNumbered(s, NumberAll(s, front, f), front, ids[n], f);
    }
  }

  lemma OneMoreNumbered(s: Store, b: Store, front: seq<nat>, id: nat, f: nat)
    requires f in s.folders && s.folders[f].uidNext >= 1 && id in s.rows && id !in front
    requires Numbered(s, b, front, f) && b.folders[f].uidNext == s.folders[f].uidNext + |front|
    ensures Numbered(s, NumberRow(b, id, f), front + [id], f)
    ensures NumberRow(b, id, f).folders[f].uidNext == s.folders[f].uidNext + |front| + 1
  {
    var t, ids := NumberRow(b, id, f), front + [id];
    assert b.rows[id] == s.rows[id];
    forall k | 0 <= k < |ids|
      ensures ids[k] in s.rows && RowNumbered(s.rows[ids[k]], t.rows[ids[k]], s.folders[f].uidNext + k)
    {
      if k < |front| { assert ids[k] == front[k]; }
    }
  }

  // ---- Folder deletion ----

  function DeletionOrder(s: Store, mailbox: nat, f: nat): (ids: seq<nat>) {
    O.SortedIds(MailboxRowsIn(s, mailbox, f), ReceivedAt(s))
  }

  /** Of every store, consistent or not: the cascade takes exactly the messages that stand in the
      folder under another mailbox. */
  lemma DeletionLosesExactly(s: Store, mailbox: nat, f: nat, inbox: nat, now: int)
    requires inbox in s.folders && f in s.folders && f != inbox && s.folders[inbox].uidNext >= 1
    ensures DeleteFolder(s, mailbox, f, inbox, now).rows.Keys ==
              set id | id in s.rows && !(InFolder(s, id, f) && s.rows[id].mailbox != Some(mailbox))
  {
    var ids := DeletionOrder(s, mailbox, f);
    O.SortedIsDistinct(MailboxRowsIn(s, mailbox, f), ReceivedAt(s));
    PlaceAllMoves(s, ids, inbox, now);
    var moved := PlaceAll(s, ids, inbox, now);
    CascadeTakes(s, moved, ids, mailbox, f, inbox, now);
    DropLoses(s, moved, mailbox, f, inbox);
  }

  lemma DropLoses(s: Store, moved: Store, mailbox: nat, f: nat, inbox: nat)
    requires moved.rows.Keys == s.rows.Keys
    requires RowsIn(moved, f) == set id | id in RowsIn(s, f) && s.rows[id].mailbox != Some(mailbox)
    ensures Bump(DropFolder(moved, f), Some(inbox)).rows.Keys ==
              set id | id in s.rows && !(InFolder(s, id, f) && s.rows[id].mailbox != Some(mailbox))
  {
    assert DropFolder(moved, f).rows.Keys == moved.rows.Keys - RowsIn(moved, f);
  }

  lemma CascadeTakes(s: Store, moved: Store, ids: seq<nat>, mailbox: nat, f: nat, inbox: nat, now: int)
    requires inbox in s.folders && f != inbox && Moved(s, moved, ids, inbox, now)
    requires forall id :: id in ids <==> id in MailboxRowsIn(s, mailbox, f)
    ensures RowsIn(moved, f) == set id | id in RowsIn(s, f) && s.rows[id].mailbox != Some(mailbox)
  {
    forall id | id in s.rows
      ensures id in RowsIn(moved, f) <==> InFolder(s, id, f) && s.rows[id].mailbox != Some(mailbox)
    {
      if id in ids {
        var k :| 0 <= k < |ids| && ids[k] == id;
        assert moved.rows[ids[k]].folder == Some(inbox);
      }
    }
  }

  /** Ascending (time, id) order, as the queries ask for. */
  predicate InOrder(time: map<nat, int>, ids: seq<nat>)
    requires forall id :: id in ids ==> id in time
  {
    forall i, j :: 0 <= i < j < |ids| ==>
      time[ids[i]] < time[ids[j]] || (time[ids[i]] == time[ids[j]] && ids[i] < ids[j])
  }

  lemma SortedInOrder(ids: set<nat>, time: map<nat, int>)
    requires ids <= time.Keys
    ensures InOrder(time, O.SortedIds(ids, time))
  {
    var order := O.SortedIds(ids, time);
    forall i, j | 0 <= i < j < |order| ensures O.IdBefore(time, order[i], order[j]) {}
  }

  /** In a consistent store no message is lost: exactly the folder's messages are moved, to fresh
      ascending UIDs of Inbox in (received_at,id) order, every other row is untouched, the folder
      is gone, the other folders are as before and Inbox's counter stands past the new UIDs. */
  lemma DeletionConservesMail(s: Store, mailbox: nat, f: nat, inbox: nat, now: int)
    requires Inv(s) && inbox in s.folders && f in s.folders && f != inbox
    requires s.folders[f].mailbox == s.folders[inbox].mailbox == mailbox
    ensures InOrder(ReceivedAt(s), DeletionOrder(s, mailbox, f))
    ensures forall id :: id in DeletionOrder(s, mailbox, f) <==> InFolder(s, id, f)
    ensures var t := DeleteFolder(s, mailbox, f, inbox, now);
            && t.folders.Keys == s.folders.Keys - {f}
            && Moved(s, t.(folders := t.folders[f := s.folders[f]]), DeletionOrder(s, mailbox, f), inbox, now)
  {
    var ids := DeletionOrder(s, mailbox, f);
    O.SortedIsDistinct(MailboxRowsIn(s, mailbox, f), ReceivedAt(s));
    SortedInOrder(MailboxRowsIn(s, mailbox, f), ReceivedAt(s));
    PlaceAllMoves(s, ids, inbox, now);
    var moved := PlaceAll(s, ids, inbox, now);
    CascadeTakes(s, moved, ids, mailbox, f, inbox, now);
    FolderRowsShareMailbox(s, f);
    DropKeepsMoved(s, moved, ids, f, inbox, now);
  }

  lemma FolderRowsShareMailbox(s: Store, f: nat)
    requires Inv(s) && f in s.folders
    ensures forall id :: InFolder(s, id, f) ==> s.rows[id].mailbox == Some(s.folders[f].mailbox)
  {
    forall id | InFolder(s, id, f) ensures s.rows[id].mailbox == Some(s.folders[f].mailbox) {
      assert RowOk(s, id, s.rows[id]);
    }
  }

  lemma DropKeepsMoved(s: Store, moved: Store, ids: seq<nat>, f: nat, inbox: nat, now: int)
    requires inbox in s.folders && f in s.folders && f != inbox && Moved(s, moved, ids, inbox, now)
    requires RowsIn(moved, f) == {}
    ensures var t := Bump(DropFolder(moved, f), Some(inbox));
            && t.folders.Keys == s.folders.Keys - {f}
            && Moved(s, t.(folders := t.folders[f := s.folders[f]]), ids, inbox, now)
  {
    var d := DropFolder(moved, f);
    assert d.rows == moved.rows;
  }

  lemma FrontDistinct(ids: seq<nat>)
    requires Distinct(ids) && ids != []
    ensures var front, last := ids[..|ids| - 1], ids[|ids| - 1];
            Distinct(front) && last in ids && last !in front && forall id :: id in front ==> id in ids
  {
  }

  lemma {:induction false} PlaceAllKeeps(s: Store, ids: seq<nat>, f: nat, inbox: nat, now: int)
    requires Inv(s) && inbox in s.folders && f != inbox && Distinct(ids)
    requires forall id :: id in ids ==> id in s.rows
    requires forall id :: id in ids ==> InFolder(s, id, f) && s.rows[id].mailbox == Some(s.folders[inbox].mailbox)
    ensures Inv(PlaceAll(s, ids, inbox, now)) && Evolves(s, PlaceAll(s, ids, inbox, now))
    ensures forall g :: g != f ==> Announced(s, PlaceAll(s, ids, inbox, now), g)
    decreases |ids|
  {
    if ids == [] {
      EvolvesReflexive(s);
    } else {
      var n := |ids| - 1;
      var front := ids[..n];
      FrontDistinct(ids);
      PlaceAllKeeps(s, front, f, inbox, now);
      PlaceAllMoves(s, front, inbox, now);
      PlaceOneMore(s, PlaceAll(s, front, inbox, now), front, ids[n], f, inbox, now);
    }
  }

  lemma PlaceOneMore(s: Store, b: Store, front: seq<nat>, id: nat, f: nat, inbox: nat, now: int)
    requires Inv(s) && Inv(b) && Evolves(s, b) && inbox in s.folders && Moved(s, b, front, inbox, now)
    requires InFolder(s, id, f) && id !in front && s.rows[id].mailbox == Some(s.folders[inbox].mailbox)
    requires forall g :: g != f ==> Announced(s, b, g)
    ensures var t := PlaceInPlace(b, id, inbox, now);
            Inv(t) && Evolves(s, t) && forall g :: g != f ==> Announced(s, t, g)
  {
    assert b.rows[id] == s.rows[id];
    PlaceInPlaceKeeps(b, id, inbox, now);
    Then(s, b, PlaceInPlace(b, id, inbox, now));
  }

  lemma PlaceInPlaceKeeps(s: Store, id: nat, f: nat, now: int)
    requires Inv(s) && id in s.rows && f in s.folders && s.rows[id].mailbox == Some(s.folders[f].mailbox)
    ensures Inv(PlaceInPlace(s, id, f, now)) && Evolves(s, PlaceInPlace(s, id, f, now))
    ensures forall g :: !(InFolder(s, id, g) && g != f) ==> Announced(s, PlaceInPlace(s, id, f, now), g)
  {
    var row := s.rows[id].(updatedAt := now);
    assert RowOk(s, id, s.rows[id]);
    assert !PathTaken(s.rows, row.mailbox, row.rawPath, id);
    assert PlaceInPlace(s, id, f, now) == Place(s, id, f, row);
    PlaceKeeps(s, id, f, row);
  }

  lemma DeleteFolderKeeps(s: Store, mailbox: nat, f: nat, inbox: nat, now: int)
    requires Inv(s) && inbox in s.folders && f in s.folders && f != inbox
    requires s.folders[f].mailbox == s.folders[inbox].mailbox == mailbox
    ensures Inv(DeleteFolder(s, mailbox, f, inbox, now)) && Evolves(s, DeleteFolder(s, mailbox, f, inbox, now))
    ensures forall g :: Announced(s, DeleteFolder(s, mailbox, f, inbox, now), g)
  {
    var ids := DeletionOrder(s, mailbox, f);
    var moved := PlaceAll(s, ids, inbox, now);
    AllMovedOut(s, mailbox, f, inbox, now);
    DropAndBumpKeeps(moved, f, inbox);
    Then(s, moved, Bump(DropFolder(moved, f), Some(inbox)));
  }

  lemma AllMovedOut(s: Store, mailbox: nat, f: nat, inbox: nat, now: int)
    requires Inv(s) && inbox in s.folders && f in s.folders && f != inbox
    requires s.folders[f].mailbox == s.folders[inbox].mailbox == mailbox
    ensures var moved := PlaceAll(s, DeletionOrder(s, mailbox, f), inbox, now);
            && Inv(moved) && Evolves(s, moved) && (forall g :: g != f ==> Announced(s, moved, g))
            && RowsIn(moved, f) == {}
  {
    var ids := DeletionOrder(s, mailbox, f);
    O.SortedIsDistinct(MailboxRowsIn(s, mailbox, f), ReceivedAt(s));
    PlaceAllKeeps(s, ids, f, inbox, now);
    PlaceAllMoves(s, ids, inbox, now);
    CascadeTakes(s, PlaceAll(s, ids, inbox, now), ids, mailbox, f, inbox, now);
    FolderRowsShareMailbox(s, f);
  }

  lemma DropAndBumpKeeps(s: Store, f: nat, inbox: nat)
    requires Inv(s) && RowsIn(s, f) == {}
    ensures var t := Bump(DropFolder(s, f), Some(inbox));
            Inv(t) && Evolves(s, t) && (forall g :: Announced(s, t, g)) && f !in t.folders
  {
    DropFolderKeeps(s, f);
    BumpKeeps(DropFolder(s, f), Some(inbox));
    Then(s, DropFolder(s, f), Bump(DropFolder(s, f), Some(inbox)));
  }

  // ---- UID backfill ----

  function BackfillOrder(s: Store, f: nat): (ids: seq<nat>) {
    O.SortedIds(Unnumbered(s, f), CreatedAt(s))
  }

  /** No message of the folder is left at UID 0: those that were are numbered from `uid_next` on,
      in (created_at,id) order; and afterwards the counters stand above every message. */
  lemma BackfillNumbersInOrder(s: Store, f: nat)
    requires f in s.folders && s.folders[f].uidNext >= 1
    ensures InOrder(CreatedAt(s), BackfillOrder(s, f))
    ensures forall id :: id in BackfillOrder(s, f) <==> InFolder(s, id, f) && s.rows[id].uid == 0
    ensures Numbered(s, BackfillFolder(s, f), BackfillOrder(s, f), f)
    ensures var t := BackfillFolder(s, f);
            forall id :: InFolder(t, id, f) ==>
              t.rows[id].uid != 0 && t.rows[id].uid < t.folders[f].uidNext && t.rows[id].modseq <= t.folders[f].highest
  {
    var ids := BackfillOrder(s, f);
    O.SortedIsDistinct(Unnumbered(s, f), CreatedAt(s));
    SortedInOrder(Unnumbered(s, f), CreatedAt(s));
    NumberAllNumbers(s, ids, f);
    RaiseKeepsNumbers(s, NumberAll(s, ids, f), ids, f);
  }

  lemma RaiseKeepsNumbers(s: Store, s1: Store, ids: seq<nat>, f: nat)
    requires f in s.folders && s.folders[f].uidNext >= 1 && Numbered(s, s1, ids, f)
    requires forall id :: id in ids <==> id in Unnumbered(s, f)
    ensures Numbered(s, RaiseCounters(s1, f), ids, f)
    ensures var t := RaiseCounters(s1, f);
            forall id :: InFolder(t, id, f) ==>
              t.rows[id].uid != 0 && t.rows[id].uid < t.folders[f].uidNext && t.rows[id].modseq <= t.folders[f].highest
  {
    NoneAtZero(s, s1, ids, f);
    RaisedAbove(s1, f);
    RaiseShape(s1, f);
    OnlyCounterRaised(s, s1, RaiseCounters(s1, f), ids, f);
  }

  lemma RaiseShape(s: Store, f: nat)
    requires f in s.folders
    ensures SameButCounters(s, RaiseCounters(s, f), f)
  {
  }

  predicate SameButCounters(s: Store, t: Store, f: nat)
    requires f in s.folders
  {
    && t.rows == s.rows && t.files == s.files && t.folders.Keys == s.folders.Keys
    && s.folders[f].uidNext <= t.folders[f].uidNext
    && forall g :: g in s.folders && g != f ==> t.folders[g] == s.folders[g]
  }

  lemma OnlyCounterRaised(s: Store, s1: Store, t: Store, ids: seq<nat>, f: nat)
    requires f in s.folders && f in s1.folders && Numbered(s, s1, ids, f) && SameButCounters(s1, t, f)
    ensures Numbered(s, t, ids, f) && forall id :: InFolder(t, id, f) <==> InFolder(s1, id, f)
  {
  }

  lemma RaisedAbove(s: Store, f: nat)
    requires f in s.folders
    ensures forall id :: InFolder(s, id, f) ==>
              && s.rows[id].uid < RaiseCounters(s, f).folders[f].uidNext
              && s.rows[id].modseq <= RaiseCounters(s, f).folders[f].highest
  {
    assert forall id :: InFolder(s, id, f) ==> id in RowsIn(s, f);
  }

  lemma NoneAtZero(s: Store, t: Store, ids: seq<nat>, f: nat)
    requires f in s.folders && s.folders[f].uidNext >= 1 && Numbered(s, t, ids, f)
    requires forall id :: id in ids <==> id in Unnumbered(s, f)
    ensures forall id :: InFolder(t, id, f) <==> InFolder(s, id, f)
    ensures forall id :: InFolder(t, id, f) ==> t.rows[id].uid != 0
  {
    forall id | id in ids ensures t.rows[id].folder == s.rows[id].folder && t.rows[id].uid != 0 {
      var k :| 0 <= k < |ids| && ids[k] == id;
    }
  }

  /** Positive UIDs of the folder are pairwise distinct. */
  ghost predicate FolderUidsDistinct(s: Store, f: nat) {
    forall i, j :: InFolder(s, i, f) && InFolder(s, j, f) && i != j && s.rows[i].uid > 0 ==>
      s.rows[i].uid != s.rows[j].uid
  }

  /** No message of the folder holds one of the next `n` UIDs. */
  ghost predicate NextUidsFree(s: Store, f: nat, n: nat)
    requires f in s.folders
  {
    forall id :: InFolder(s, id, f) ==> !(s.folders[f].uidNext <= s.rows[id].uid < s.folders[f].uidNext + n)
  }

  /** The backfill runs before the unique index on (folder, uid) is made. Of any store, consistent or
      not, it yields unique UIDs exactly when no message already holds one of the numbers that are
      about to be handed out. */
  lemma BackfillUniqueExactlyWhen(s: Store, f: nat)
    requires f in s.folders && s.folders[f].uidNext >= 1 && FolderUidsDistinct(s, f)
    ensures FolderUidsDistinct(BackfillFolder(s, f), f) <==> NextUidsFree(s, f, |Unnumbered(s, f)|)
  {
    BackfillNumbersInOrder(s, f);
    var ids := BackfillOrder(s, f);
    NumberedUniqueExactlyWhen(s, BackfillFolder(s, f), ids, f);
  }

  /** On the stores the server itself leaves it always does: where the columns have just been added
      every UID is 0, and later each UID is below its folder's next one. */
  lemma BackfillUniqueInPractice(s: Store, f: nat)
    requires f in s.folders && s.folders[f].uidNext >= 1 && FolderUidsDistinct(s, f)
    requires forall id :: InFolder(s, id, f) ==> s.rows[id].uid < s.folders[f].uidNext
    ensures FolderUidsDistinct(BackfillFolder(s, f), f)
  {
    BackfillUniqueExactlyWhen(s, f);
  }

  /** A folder whose next UID lies below a UID in use, as no operation of the server leaves it: the
      unnumbered message gets the number its neighbour has. */
  lemma BackfillOnLowCounter(row: Row)
    ensures var used := row.(folder := Some(0), uid := 1);
            var s := Store(false, map[0 := Folder(0, "Inbox", 1, 1)], map[1 := used, 2 := used.(uid := 0)], map[], 3);
            FolderUidsDistinct(s, 0) && !FolderUidsDistinct(BackfillFolder(s, 0), 0)
  {
    var used := row.(folder := Some(0), uid := 1);
    var s := Store(false, map[0 := Folder(0, "Inbox", 1, 1)], map[1 := used, 2 := used.(uid := 0)], map[], 3);
    assert InFolder(s, 1, 0) && InFolder(s, 2, 0);
    assert Unnumbered(s, 0) == {2};
    BackfillUniqueExactlyWhen(s, 0);
  }

  lemma NumberedUniqueExactlyWhen(s: Store, t: Store, ids: seq<nat>, f: nat)
    requires f in s.folders && s.folders[f].uidNext >= 1 && FolderUidsDistinct(s, f)
    requires Numbered(s, t, ids, f) && forall id :: id in ids <==> id in Unnumbered(s, f)
    ensures FolderUidsDistinct(t, f) <==> NextUidsFree(s, f, |ids|)
  {
    NoneAtZero(s, t, ids, f);
    var first := s.folders[f].uidNext;
    if id :| InFolder(s, id, f) && first <= s.rows[id].uid < first + |ids| {
      var k := s.rows[id].uid - first;
      assert id !in ids && ids[k] in ids && t.rows[ids[k]].uid == t.rows[id].uid;
      assert InFolder(t, id, f) && InFolder(t, ids[k], f);
    } else {
      forall i, j | InFolder(t, i, f) && InFolder(t, j, f) && i != j && t.rows[i].uid > 0
        ensures t.rows[i].uid != t.rows[j].uid
      {
        NumbersDiffer(s, t, ids, f, i, j);
      }
    }
  }

  lemma NumbersDiffer(s: Store, t: Store, ids: seq<nat>, f: nat, i: nat, j: nat)
    requires f in s.folders && s.folders[f].uidNext >= 1 && FolderUidsDistinct(s, f) && Numbered(s, t, ids, f)
    requires (forall id :: id in ids <==> id in Unnumbered(s, f)) && NextUidsFree(s, f, |ids|)
    requires InFolder(t, i, f) && InFolder(t, j, f) && i != j && t.rows[i].uid > 0
    ensures t.rows[i].uid != t.rows[j].uid
  {
    NumberedOrKept(s, t, ids, f, i);
    NumberedOrKept(s, t, ids, f, j);
  }

  /** A message of the folder has its number from the loop, by its place, or the one it had. */
  lemma NumberedOrKept(s: Store, t: Store, ids: seq<nat>, f: nat, id: nat)
    requires f in s.folders && Numbered(s, t, ids, f) && InFolder(t, id, f)
    ensures InFolder(s, id, f)
    ensures id !in ids ==> t.rows[id] == s.rows[id]
    ensures id in ids ==> exists k :: 0 <= k < |ids| && ids[k] == id && t.rows[id].uid == s.folders[f].uidNext + k
  {
    if id in ids { var k :| 0 <= k < |ids| && ids[k] == id; }
  }

  lemma {:induction false} NumberAllKeeps(s: Store, ids: seq<nat>, f: nat)
    requires Inv(s) && f in s.folders
    requires forall id :: id in ids ==> id in s.rows
    requires Distinct(ids) && forall id :: id in ids ==> InFolder(s, id, f)
    ensures Inv(NumberAll(s, ids, f)) && Evolves(s, NumberAll(s, ids, f))
    ensures forall g :: Announced(s, NumberAll(s, ids, f), g)
    decreases |ids|
  {
    if ids == [] {
      EvolvesReflexive(s);
    } else {
      var n := |ids| - 1;
      var front := ids[..n];
      FrontDistinct(ids);
      NumberAllKeeps(s, front, f);
      NumberAllNumbers(s, front, f);
      NumberOneMore(s, NumberAll(s, front, f), front, ids[n], f);
    }
  }

  lemma NumberOneMore(s: Store, b: Store, front: seq<nat>, id: nat, f: nat)
    requires Inv(s) && Inv(b) && Evolves(s, b) && f in s.folders && Numbered(s, b, front, f)
    requires InFolder(s, id, f) && id !in front
    requires forall g :: Announced(s, b, g)
    ensures var t := NumberRow(b, id, f); Inv(t) && Evolves(s, t) && forall g :: Announced(s, t, g)
  {
    assert b.rows[id] == s.rows[id];
    NumberRowKeeps(b, id, f);
    Then(s, b, NumberRow(b, id, f));
  }

  lemma NumberRowKeeps(s: Store, id: nat, f: nat)
    requires Inv(s) && InFolder(s, id, f) && f in s.folders
    ensures Inv(NumberRow(s, id, f)) && Evolves(s, NumberRow(s, id, f))
    ensures forall g :: Announced(s, NumberRow(s, id, f), g)
  {
    var row := s.rows[id];
    assert RowOk(s, id, row);
    assert !PathTaken(s.rows, row.mailbox, row.rawPath, id);
    assert NumberRow(s, id, f) == Place(s, id, f, row);
    PlaceKeeps(s, id, f, row);
  }

  lemma BackfillKeeps(s: Store, f: nat)
    requires Inv(s) && f in s.folders
    ensures Inv(BackfillFolder(s, f)) && Evolves(s, BackfillFolder(s, f))
    ensures forall g :: Announced(s, BackfillFolder(s, f), g)
  {
    var ids := BackfillOrder(s, f);
    O.SortedIsDistinct(Unnumbered(s, f), CreatedAt(s));
    NumberAllKeeps(s, ids, f);
    var s1 := NumberAll(s, ids, f);
    CountersAreMaximal(s1, f);
  }

  /** In a consistent store the counters already stand above every message. */
  lemma CountersAreMaximal(s: Store, f: nat)
    requires Inv(s) && f in s.folders
    ensures RaiseCounters(s, f) == s
  {
    forall id | id in RowsIn(s, f)
      ensures s.rows[id].uid < s.folders[f].uidNext && s.rows[id].modseq <= s.folders[f].highest
    {
      assert RowOk(s, id, s.rows[id]);
    }
    assert RaiseCounters(s, f).folders[f] == s.folders[f];
    assert RaiseCounters(s, f).folders == s.folders;
  }
}
