/** Every run of store operations, in any order and number, with other programs changing the
    Maildir between them: UIDs are never reused and grow, mod-sequences cover every change, and
    which one operation a client of the source folder is not told about. */
module StoreRuns {
  import opened Common
  import opened StoreModel
  import opened StoreInvariants
  import opened StoreSteps
  import opened FolderOps
  import opened MaildirScan
  import opened Reconcile

  datatype Step =
    | AddFolder(mailbox: nat, name: string)
    | InsertMessage(row: Row, quotaOk: bool)
    | ChangeFlags(id: nat, read: bool, starred: bool, now: int)
    | MoveMessage(id: nat, target: nat, name: string, now: int)
    | DeleteMessage(id: nat)
    | DeleteMailFolder(mailbox: nat, f: nat, inbox: nat, now: int)
    | BackfillUids(f: nat)
    | SyncMaildirFile(f: nat, p: Path, env: Env)
    | RewriteMessage(id: nat, name: string, now: int)
    | Cleanup(cutoff: int)
    | OtherPrograms(files: map<Path, Mid>)

  /** What the handlers check, or read from the database, before each operation. */
  ghost predicate Enabled(s: Store, step: Step) {
    match step
    case AddFolder(_, _) => true
    case InsertMessage(row, _) =>
      PathOwned(row)
      && (row.folder.Some? ==>
            row.folder.value in s.folders && row.mailbox == Some(s.folders[row.folder.value].mailbox))
    case ChangeFlags(_, _, _, _) => true
    case MoveMessage(id, target, _, _) =>
      target in s.folders && id in s.rows && s.rows[id].mailbox == Some(s.folders[target].mailbox)
    case DeleteMessage(_) => true
    case DeleteMailFolder(mailbox, f, inbox, _) =>
      f in s.folders && inbox in s.folders && f != inbox && s.folders[f].mailbox == s.folders[inbox].mailbox == mailbox
      && !IsSystemFolder(s.folders[f].name) && IsInbox(s.folders[inbox].name)
    case BackfillUids(f) => f in s.folders
    case SyncMaildirFile(f, p, _) => f in s.folders && p.Inside? && p.mailbox == s.folders[f].mailbox
    case RewriteMessage(id, _, _) => Writable(s, id)
    case Cleanup(_) => true
    case OtherPrograms(_) => true
  }

  function Apply(s: Store, step: Step): Store
    requires Enabled(s, step)
  {
    match step
    case AddFolder(mailbox, name) => EnsureFolder(s, mailbox, name)
    case InsertMessage(row, quotaOk) => Insert(s, row, quotaOk)
    case ChangeFlags(id, read, starred, now) => SetFlags(s, id, read, starred, now)
    case MoveMessage(id, target, name, now) => Move(s, id, target, name, now)
    case DeleteMessage(id) => Delete(s, id)
    case DeleteMailFolder(mailbox, f, inbox, now) => DeleteFolder(s, mailbox, f, inbox, now)
    case BackfillUids(f) => BackfillFolder(s, f)
    case SyncMaildirFile(f, p, env) => SyncFile(s, f, p, env).0
    case RewriteMessage(id, name, now) => Rewrite(s, id, name, now)
    case Cleanup(cutoff) => CleanupMissing(s, cutoff)
    case OtherPrograms(files) => s.(files := files)
  }

  /** The one operation that takes a message out of folder `f` without raising its highest
      mod-sequence: a move that renames the message's file. */
  predicate SilentFor(s: Store, step: Step, f: nat) {
    step.MoveMessage? && RenamePath(s, step.id) && InFolder(s, step.id, f) && step.target != f
  }

  // ---- One step ----

  lemma SyncFileKeeps(s: Store, f: nat, p: Path, env: Env)
    requires Scannable(s, f, p)
    ensures Kept(s, SyncFile(s, f, p, env).0)
  {
    EvolvesReflexive(s);
    if p in s.files && p !in env.unreadable {
      var s1 := if s.files[p] == NO_MID then TakeId(s) else s;
      TakeIdKeeps(s);
      SyncParsedKeeps(s1, f, p, FileMid(s, p), FlagsOnDisk(s, f, p), env);
      KeptThen(s, s1, SyncFile(s, f, p, env).0);
    }
  }

  lemma SyncParsedKeeps(s: Store, f: nat, p: Path, mid: Mid, flags: (bool, bool), env: Env)
    requires Scannable(s, f, p)
    ensures Kept(s, SyncParsed(s, f, p, mid, flags, env).0)
  {
    SyncExistingKeeps(s, f, p, mid, flags, env.now);
    var t := SyncExisting(s, f, p, mid, flags, env.now).0;
    InsertKeptAfter(s, t, NewRow(t, f, p, mid, flags, env), f);
  }

  lemma SyncExistingKeeps(s: Store, f: nat, p: Path, mid: Mid, flags: (bool, bool), now: int)
    requires Scannable(s, f, p)
    ensures Kept(s, SyncExisting(s, f, p, mid, flags, now).0)
    ensures Scannable(SyncExisting(s, f, p, mid, flags, now).0, f, p)
  {
    if Settled(s, f, p, mid).Some? {
      SettledTakes(s, f, p, mid, flags, now);
    } else {
      assert SyncExisting(s, f, p, mid, flags, now).0 == RemoveDuplicate(s, f, p, mid);
      RemoveDuplicateKeeps(s, f, p, mid);
    }
  }

  lemma RemoveDuplicateKeeps(s: Store, f: nat, p: Path, mid: Mid)
    requires Scannable(s, f, p)
    ensures Kept(s, RemoveDuplicate(s, f, p, mid)) && Scannable(RemoveDuplicate(s, f, p, mid), f, p)
  {
    if RemoveDuplicate(s, f, p, mid) == s {
      EvolvesReflexive(s);
    } else {
      FilesKeep(s, RemovePath(s.files, Some(p)));
    }
  }

  lemma InsertKeptAfter(s: Store, t: Store, row: Row, f: nat)
    requires Inv(s) && Kept(s, t) && f in t.folders && row.folder == Some(f) && PathOwned(row)
    requires row.mailbox == Some(t.folders[f].mailbox)
    ensures Kept(s, Insert(t, row, true))
  {
    InsertKeeps(t, row, true);
    KeptThen(s, t, Insert(t, row, true));
  }

  lemma StepKeeps(s: Store, step: Step)
    requires Inv(s) && Enabled(s, step)
    ensures Inv(Apply(s, step)) && Evolves(s, Apply(s, step))
    ensures forall f :: !SilentFor(s, step, f) ==> Announced(s, Apply(s, step), f)
  {
    match step
    case AddFolder(mailbox, name) => EnsureFolderKeeps(s, mailbox, name);
    case InsertMessage(row, quotaOk) => InsertKeeps(s, row, quotaOk);
    case ChangeFlags(id, read, starred, now) => SetFlagsKeeps(s, id, read, starred, now);
    case MoveMessage(id, target, name, now) => MoveKeeps(s, id, target, name, now);
    case DeleteMessage(id) => DeleteKeeps(s, id);
    case DeleteMailFolder(mailbox, f, inbox, now) => DeleteFolderKeeps(s, mailbox, f, inbox, now);
    case BackfillUids(f) => BackfillKeeps(s, f);
    case SyncMaildirFile(f, p, env) => SyncFileKeeps(s, f, p, env);
    case RewriteMessage(id, name, now) => RewriteKeeps(s, id, name, now);
    case Cleanup(cutoff) => CleanupKeeps(s, cutoff);
    case OtherPrograms(files) => FilesKeep(s, files);
  }

  // ---- Runs ----

  ghost predicate IsRun(states: seq<Store>, steps: seq<Step>) {
    && |states| == |steps| + 1
    && Inv(states[0])
    && forall k :: 0 <= k < |steps| ==> Enabled(states[k], steps[k]) && states[k + 1] == Apply(states[k], steps[k])
  }

  /** Every run from a new database is one of those the results below speak of. */
  lemma RunFromNewDatabase(rooted: bool, states: seq<Store>, steps: seq<Step>)
    requires |states| == |steps| + 1 && states[0] == Store(rooted, map[], map[], map[], 0)
    requires forall k :: 0 <= k < |steps| ==>
              Enabled(states[k], steps[k]) && states[k + 1] == Apply(states[k], steps[k])
    ensures IsRun(states, steps)
  {
    EmptyStoreOk(rooted);
  }

  lemma {:induction false} RunInv(states: seq<Store>, steps: seq<Step>, k: nat)
    requires IsRun(states, steps) && k < |states|
    ensures Inv(states[k])
  {
    if k > 0 {
      RunInv(states, steps, k - 1);
      StepKeeps(states[k - 1], steps[k - 1]);
    }
  }

  lemma {:induction false} RunEvolves(states: seq<Store>, steps: seq<Step>, i: nat, j: nat)
    requires IsRun(states, steps) && i <= j < |states|
    ensures Inv(states[i]) && Inv(states[j]) && Evolves(states[i], states[j])
    decreases j - i
  {
    RunInv(states, steps, i);
    RunInv(states, steps, j);
    if i == j {
      EvolvesReflexive(states[i]);
    } else {
      RunEvolves(states, steps, i, j - 1);
      EvolvesOneMore(states[i], states[j - 1], steps[j - 1]);
    }
  }

  lemma EvolvesOneMore(s: Store, t: Store, step: Step)
    requires Inv(s) && Inv(t) && Evolves(s, t) && Enabled(t, step)
    ensures Evolves(s, Apply(t, step))
  {
    StepKeeps(t, step);
    EvolvesTransitive(s, t, Apply(t, step));
  }

  /** A UID of a folder means one message for ever. */
  lemma UidNeverReused(states: seq<Store>, steps: seq<Step>, i: nat, j: nat, f: nat, a: nat, b: nat)
    requires IsRun(states, steps) && i <= j < |states|
    requires InFolder(states[i], a, f) && InFolder(states[j], b, f)
    requires states[i].rows[a].uid == states[j].rows[b].uid > 0
    ensures a == b
  {
    RunEvolves(states, steps, i, j);
    assert RowOk(states[i], a, states[i].rows[a]);
    assert InFolder(states[i], b, f);
    assert SharesFolder(states[i].rows[a], states[i].rows[b]);
  }

  /** A message that got its place in a folder later has a larger UID than all that were there. */
  lemma LaterMeansLarger(states: seq<Store>, steps: seq<Step>, i: nat, j: nat, f: nat, a: nat, b: nat)
    requires IsRun(states, steps) && i <= j < |states|
    requires InFolder(states[i], a, f) && InFolder(states[j], b, f) && states[j].rows[b].uid > 0
    requires !(InFolder(states[i], b, f) && states[i].rows[b].uid == states[j].rows[b].uid)
    ensures states[i].rows[a].uid < states[j].rows[b].uid
  {
    RunEvolves(states, steps, i, j);
    assert RowOk(states[i], a, states[i].rows[a]);
  }

  /** Asking a folder for everything changed since the highest mod-sequence seen misses nothing:
      below saturation every message that is new, or whose UID or flags differ, answers. */
  lemma ChangedSinceIsComplete(states: seq<Store>, steps: seq<Step>, i: nat, j: nat, f: nat, id: nat)
    requires IsRun(states, steps) && i <= j < |states|
    requires f in states[i].folders && InFolder(states[j], id, f) && Headroom(states[j], f)
    requires !SameSeen(states[i], states[j], id, f)
    ensures states[i].folders[f].highest < states[j].rows[id].modseq <= states[j].folders[f].highest
  {
    RunEvolves(states, steps, i, j);
    assert Stamped(states[i], states[j], id, f);
    assert RowOk(states[j], id, states[j].rows[id]);
  }

  lemma {:induction false} RunAnnounces(states: seq<Store>, steps: seq<Step>, i: nat, j: nat, f: nat)
    requires IsRun(states, steps) && i <= j < |states|
    requires forall k :: i <= k < j ==> !SilentFor(states[k], steps[k], f)
    ensures Announced(states[i], states[j], f)
    decreases j - i
  {
    RunInv(states, steps, i);
    if i == j {
      EvolvesReflexive(states[i]);
    } else {
      RunAnnounces(states, steps, i, j - 1, f);
      RunEvolves(states, steps, i, j - 1);
      AnnouncesOneMore(states[i], states[j - 1], steps[j - 1], f);
    }
  }

  lemma AnnouncesOneMore(s: Store, t: Store, step: Step, f: nat)
    requires Inv(s) && Inv(t) && Evolves(s, t) && Announced(s, t, f) && Enabled(t, step) && !SilentFor(t, step, f)
    ensures Announced(s, Apply(t, step), f)
  {
    StepKeeps(t, step);
    AnnouncedTransitive(s, t, Apply(t, step), f);
  }

  /** A client of the folder sees the same messages with the same UIDs and flags. */
  ghost predicate LooksSame(s: Store, t: Store, f: nat) {
    forall id :: (InFolder(s, id, f) || InFolder(t, id, f)) ==> SameSeen(s, t, id, f)
  }

  /** Over any run without silent moves out of the folder: if what a client sees of it changed at
      all, its highest mod-sequence rose; so an unchanged value proves an unchanged view. */
  lemma ChangeRaisesHighest(states: seq<Store>, steps: seq<Step>, i: nat, j: nat, f: nat)
    requires IsRun(states, steps) && i <= j < |states|
    requires f in states[i].folders && Headroom(states[j], f)
    requires forall k :: i <= k < j ==> !SilentFor(states[k], steps[k], f)
    ensures !LooksSame(states[i], states[j], f) ==> states[i].folders[f].highest < states[j].folders[f].highest
  {
    RunEvolves(states, steps, i, j);
    RunAnnounces(states, steps, i, j, f);
    if !LooksSame(states[i], states[j], f) {
      var id :| (InFolder(states[i], id, f) || InFolder(states[j], id, f)) && !SameSeen(states[i], states[j], id, f);
      if InFolder(states[j], id, f) {
        ChangedSinceIsComplete(states, steps, i, j, f, id);
      }
    }
  }
}
