/** What every state of the message store satisfies, what every step promises about the state
    before and after it, and that the basic steps keep both. UIDs: section 2.3.1.1 of RFC 9051;
    mod-sequences: section 3.1 of RFC 7162. */
module StoreInvariants {
  import opened Common
  import opened StoreModel

  // ---- One state ----

  ghost predicate FoldersOk(s: Store) {
    forall f :: f in s.folders ==> f < s.nextId && 1 <= s.folders[f].uidNext && 1 <= s.folders[f].highest <= MAX_INT64
  }

  /** A row's mailbox owns its folder and its file, its UID is below the folder's next one, and
      its mod-sequence is at most the folder's highest. */
  ghost predicate RowOk(s: Store, id: nat, row: Row) {
    && id < s.nextId
    && (row.folder.Some? ==>
          var f := row.folder.value;
          && f in s.folders
          && row.mailbox == Some(s.folders[f].mailbox)
          && 0 <= row.uid < s.folders[f].uidNext
          && row.modseq <= s.folders[f].highest)
    && PathOwned(row)
  }

  ghost predicate PathOwned(row: Row) {
    row.mailbox.Some? && row.rawPath.Some? && row.rawPath.value.Inside? ==>
      row.rawPath.value.mailbox == row.mailbox.value
  }

  ghost predicate RowsOk(s: Store) {
    forall id :: id in s.rows ==> RowOk(s, id, s.rows[id])
  }

  predicate SharesFolder(a: Row, b: Row) {
    a.folder.Some? && a.folder == b.folder
  }

  ghost predicate UidsDistinct(s: Store) {
    forall i, j :: i in s.rows && j in s.rows && i != j && SharesFolder(s.rows[i], s.rows[j]) && s.rows[i].uid > 0 ==>
        s.rows[i].uid != s.rows[j].uid
  }

  ghost predicate PathsDistinct(s: Store) {
    forall i, j :: i in s.rows && j in s.rows && i != j && s.rows[i].rawPath.Some?
      && s.rows[i].mailbox == s.rows[j].mailbox
      ==> s.rows[i].rawPath != s.rows[j].rawPath
  }

  ghost predicate Inv(s: Store) {
    FoldersOk(s) && RowsOk(s) && UidsDistinct(s) && PathsDistinct(s)
  }

  /** The store a new database starts with. */
  lemma EmptyStoreOk(rooted: bool)
    ensures Inv(Store(rooted, map[], map[], map[], 0))
  {
  }

  // ---- Two states ----

  predicate InFolder(s: Store, id: nat, f: nat) {
    id in s.rows && s.rows[id].folder == Some(f)
  }

  /** What an IMAP client of folder `f` sees of a message is the same in both states. */
  predicate SameSeen(s: Store, t: Store, id: nat, f: nat) {
    && InFolder(s, id, f) && InFolder(t, id, f)
    && s.rows[id].uid == t.rows[id].uid
    && s.rows[id].read == t.rows[id].read
    && s.rows[id].starred == t.rows[id].starred
  }

  /** Below saturation, so that one more bump still raises the value. */
  predicate Headroom(s: Store, f: nat) {
    f in s.folders && s.folders[f].highest + 1 < MAX_INT64
  }

  ghost predicate CountersGrow(s: Store, t: Store) {
    && s.nextId <= t.nextId
    && (forall f :: f in t.folders && f !in s.folders ==> f >= s.nextId)
    && (forall f :: f in t.folders && f in s.folders ==>
          && t.folders[f].mailbox == s.folders[f].mailbox
          && t.folders[f].name == s.folders[f].name
          && s.folders[f].uidNext <= t.folders[f].uidNext
          && s.folders[f].highest <= t.folders[f].highest)
  }

  /** A UID that had been handed out still means the same message: UIDs are never reused, and
      messages arriving later have larger ones. */
  ghost predicate UidsKept(s: Store, t: Store) {
    forall id, f :: InFolder(t, id, f) && f in s.folders && 0 < t.rows[id].uid < s.folders[f].uidNext
      ==> InFolder(s, id, f) && s.rows[id].uid == t.rows[id].uid
  }

  /** A client that knows a folder up to its highest mod-sequence in `s` finds every message that
      is new or changed in `t` above it, and no mod-sequence ever falls. */
  ghost predicate ChangesStamped(s: Store, t: Store) {
    forall id, f :: InFolder(t, id, f) && f in s.folders && Headroom(t, f) ==> Stamped(s, t, id, f)
  }

  ghost predicate Stamped(s: Store, t: Store, id: nat, f: nat)
    requires InFolder(t, id, f) && f in s.folders
  {
    && (SameSeen(s, t, id, f) ==> s.rows[id].modseq <= t.rows[id].modseq)
    && (!SameSeen(s, t, id, f) ==> s.folders[f].highest < t.rows[id].modseq)
  }

  ghost predicate Evolves(s: Store, t: Store) {
    CountersGrow(s, t) && UidsKept(s, t) && ChangesStamped(s, t)
  }

  /** Messages that left folder `f` raised its highest mod-sequence. */
  ghost predicate Announced(s: Store, t: Store, f: nat) {
    f in s.folders && Headroom(t, f) ==>
      (forall id :: InFolder(s, id, f) && !InFolder(t, id, f) ==> s.folders[f].highest < t.folders[f].highest)
  }

  lemma EvolvesReflexive(s: Store)
    ensures Evolves(s, s)
    ensures forall f :: Announced(s, s, f)
  {
  }

  lemma EvolvesTransitive(s: Store, t: Store, u: Store)
    requires Inv(s) && Inv(t) && Inv(u) && Evolves(s, t) && Evolves(t, u)
    ensures Evolves(s, u)
  {
    forall f | f in u.folders && f in s.folders ensures f in t.folders {}
    forall id, f | InFolder(u, id, f) && f in s.folders && Headroom(u, f)
      ensures Stamped(s, u, id, f)
    {
      assert Stamped(t, u, id, f);
      if SameSeen(t, u, id, f) {
        assert Stamped(s, t, id, f);
      }
      if id in s.rows { assert RowOk(s, id, s.rows[id]); }
    }
    forall id, f | InFolder(u, id, f) && f in s.folders && 0 < u.rows[id].uid < s.folders[f].uidNext
      ensures InFolder(s, id, f) && s.rows[id].uid == u.rows[id].uid
    {
      assert RowOk(u, id, u.rows[id]);
      assert InFolder(t, id, f);
    }
  }
}
