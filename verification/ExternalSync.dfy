/** Incremental import from an external IMAP account. Each pass lists at most a hundred messages
    above the highest UID seen so far and imports those not yet recorded. */
module ExternalSync {
  import opened Common

  const BATCH := 100

  datatype Folder = Folder(account: string, name: string)

  /** The primary key of `external_imap_messages`. */
  datatype Key = Key(folder: Folder, validity: nat, uid: nat)

  /** `inserts` lists the keys for which a local message was inserted, in order. */
  datatype State = State(records: set<Key>, inserts: seq<Key>, lastUid: map<Folder, nat>)

  /** What fetching and parsing the body of one message gives: the UIDVALIDITY seen then, whether
      a message with its message-id is already in the local folder, and whether inserting works. */
  datatype Raw = Unreadable | Raw(validity: nat, present: bool, insertable: bool)

  datatype Outcome = Imported | Skipped | Failed

  function LastUid(st: State, f: Folder): nat { if f in st.lastUid then st.lastUid[f] else 0 }

  /** A mailbox on the remote server; `uids` in the order the server delivers them. */
  datatype Remote = Remote(validity: nat, uidNext: nat, uids: seq<nat>)

  predicate Listed(r: Remote, after: nat, uid: nat) { after + 1 <= uid <= r.uidNext - 1 }

  function Above(r: Remote, uids: seq<nat>, after: nat): seq<nat> {
    if uids == [] then []
    else if Listed(r, after, uids[0]) then [uids[0]] + Above(r, uids[1..], after)
    else Above(r, uids[1..], after)
  }

  /** `FetchNew`: the UIDs from `after+1` to `UIDNEXT-1`, cut after a hundred. */
  function FetchNew(r: Remote, after: nat): (batch: seq<nat>)
    ensures |batch| <= BATCH
  {
    if r.uids == [] || r.uidNext <= after + 1 then []
    else
      var all := Above(r, r.uids, after);
      if |all| > BATCH then all[..BATCH] else all
  }

  /** The check before a message is fetched: is it recorded under the UIDVALIDITY of the list? */
  predicate Known(st: State, f: Folder, validity: nat, uid: nat) { Key(f, validity, uid) in st.records }

  /** What comes of fetching, parsing and recording a message that was not known. The record, made
      with `INSERT OR IGNORE`, and the insert of the local message are one transaction. */
  function ImportOutcome(st: State, f: Folder, uid: nat, raw: Raw): Outcome {
    if raw == Unreadable then Failed
    else if Key(f, raw.validity, uid) in st.records then Skipped
    else if raw.present then Skipped
    else if !raw.insertable then Failed
    else Imported
  }

  function Import(st: State, f: Folder, uid: nat, raw: Raw): State {
    match ImportOutcome(st, f, uid, raw)
    case Failed => st
    case Imported =>
      var k := Key(f, raw.validity, uid);
      st.(records := st.records + {k}, inserts := st.inserts + [k])
    case Skipped => st.(records := st.records + {Key(f, raw.validity, uid)})
  }

  function ItemOutcome(st: State, f: Folder, validity: nat, uid: nat, raw: Raw): Outcome {
    if Known(st, f, validity, uid) then Skipped else ImportOutcome(st, f, uid, raw)
  }

  function ItemStep(st: State, f: Folder, validity: nat, uid: nat, raw: Raw): State {
    if Known(st, f, validity, uid) then st else Import(st, f, uid, raw)
  }

  /** The upsert of the folder state: `last_uid=MAX(last_uid,excluded.last_uid)`. */
  function Finish(st: State, f: Folder, maxUid: nat): State {
    st.(lastUid := st.lastUid[f := Max(LastUid(st, f), maxUid)])
  }

  // ---- One pass ----

  function Items(st: State, f: Folder, validity: nat, batch: seq<nat>, raw: nat -> Raw): State {
    if batch == [] then st
    else
      var front, uid := batch[..|batch| - 1], batch[|batch| - 1];
      ItemStep(Items(st, f, validity, front, raw), f, validity, uid, raw(uid))
  }

  function MaxOf(start: nat, batch: seq<nat>): (m: nat)
    ensures m >= start && forall u :: u in batch ==> u <= m
    ensures m == start || m in batch
  {
    if batch == [] then start
    else
      assert batch == batch[..|batch| - 1] + [batch[|batch| - 1]];
      Max(MaxOf(start, batch[..|batch| - 1]), batch[|batch| - 1])
  }

  function Pass(st: State, f: Folder, r: Remote, raw: nat -> Raw): State {
    var batch := FetchNew(r, LastUid(st, f));
    Finish(Items(st, f, r.validity, batch, raw), f, MaxOf(LastUid(st, f), batch))
  }

  lemma {:induction false} ItemsKeepLast(st: State, f: Folder, validity: nat, batch: seq<nat>, raw: nat -> Raw)
    ensures Items(st, f, validity, batch, raw).lastUid == st.lastUid
  {
    if batch != [] { ItemsKeepLast(st, f, validity, batch[..|batch| - 1], raw); }
  }

  /** What came of each message of the batch, in turn. */
  function Outcomes(st: State, f: Folder, validity: nat, batch: seq<nat>, raw: nat -> Raw): (r: seq<Outcome>)
    ensures |r| == |batch|
  {
    seq(|batch|, i requires 0 <= i < |batch| =>
      ItemOutcome(Items(st, f, validity, batch[..i], raw), f, validity, batch[i], raw(batch[i])))
  }

  function CountOf(outcomes: seq<Outcome>, o: Outcome): nat { multiset(outcomes)[o] }

  predicate Counts(outcomes: seq<Outcome>, imported: nat, skipped: nat, failed: nat) {
    && CountOf(outcomes, Imported) == imported && CountOf(outcomes, Skipped) == skipped
    && CountOf(outcomes, Failed) == failed
  }

  lemma OneOutcomeMore(st: State, f: Folder, validity: nat, batch: seq<nat>, raw: nat -> Raw, i: nat, o: Outcome)
    requires i < |batch|
    requires o == ItemOutcome(Items(st, f, validity, batch[..i], raw), f, validity, batch[i], raw(batch[i]))
    ensures var before := Outcomes(st, f, validity, batch[..i], raw);
            var after := Outcomes(st, f, validity, batch[..i + 1], raw);
            forall p :: CountOf(after, p) == CountOf(before, p) + if p == o then 1 else 0
  {
    assert forall j :: 0 <= j < i ==> batch[..i][..j] == batch[..j] == batch[..i + 1][..j];
    assert batch[..i + 1][..i] == batch[..i];
    assert Outcomes(st, f, validity, batch[..i + 1], raw) == Outcomes(st, f, validity, batch[..i], raw) + [o];
  }

  /** Where the loop stands after the messages of `batch`. */
  predicate SoFar(st0: State, st: State, f: Folder, validity: nat, batch: seq<nat>, raw: nat -> Raw, imported: nat,
        skipped: nat, failed: nat)
  {
    && st == Items(st0, f, validity, batch, raw) && imported + skipped + failed == |batch|
    && |st.inserts| == |st0.inserts| + imported
    && Counts(Outcomes(st0, f, validity, batch, raw), imported, skipped, failed)
  }

  lemma OneItemMore(st0: State, st: State, f: Folder, validity: nat, batch: seq<nat>, raw: nat -> Raw, i: nat,
        imported: nat, skipped: nat, failed: nat, o: Outcome)
    requires i < |batch| && SoFar(st0, st, f, validity, batch[..i], raw, imported, skipped, failed)
    requires o == ItemOutcome(st, f, validity, batch[i], raw(batch[i]))
    ensures SoFar(st0, ItemStep(st, f, validity, batch[i], raw(batch[i])), f, validity, batch[..i + 1], raw,
                  imported + if o == Imported then 1 else 0, skipped + if o == Skipped then 1 else 0,
                  failed + if o == Failed then 1 else 0)
  {
    assert batch[..i + 1][..i] == batch[..i];
    OneOutcomeMore(st0, f, validity, batch, raw, i, o);
  }

  lemma BatchDone(st0: State, st: State, f: Folder, r: Remote, raw: nat -> Raw, imported: nat, skipped: nat,
        failed: nat)
    requires SoFar(st0, st, f, r.validity, FetchNew(r, LastUid(st0, f)), raw, imported, skipped, failed)
    ensures Finish(st, f, MaxOf(LastUid(st0, f), FetchNew(r, LastUid(st0, f)))) == Pass(st0, f, r, raw)
    ensures |Pass(st0, f, r, raw).inserts| == |st0.inserts| + imported
  {
    ItemsKeepLast(st0, f, r.validity, FetchNew(r, LastUid(st0, f)), raw);
  }

  lemma MaxOneMore(start: nat, batch: seq<nat>, i: nat)
    requires i < |batch|
    ensures MaxOf(start, batch[..i + 1]) == Max(MaxOf(start, batch[..i]), batch[i])
  {
    assert batch[..i + 1][..i] == batch[..i];
  }

  class Importer {
    var st: State

    constructor ()
      ensures st == State({}, [], map[])
    {
      st := State({}, [], map[]);
    }

    /** `syncExternalIMAPFolder` over the batch the server delivered. */
    method SyncFolder(f: Folder, r: Remote, raw: nat -> Raw) returns (imported: nat, skipped: nat, failed: nat)
      modifies this
      ensures st == Pass(old(st), f, r, raw)
      ensures imported + skipped + failed == |FetchNew(r, LastUid(old(st), f))|
      ensures |st.inserts| == |old(st.inserts)| + imported
      ensures Counts(Outcomes(old(st), f, r.validity, FetchNew(r, LastUid(old(st), f)), raw), imported, skipped, failed)
    {
      var last := LastUid(st, f);
      var remote := FetchNew(r, last);
      imported, skipped, failed := 0, 0, 0;
      var maxUid := last;
      for i := 0 to |remote|
        invariant maxUid == MaxOf(last, remote[..i])
        invariant SoFar(old(st), st, f, r.validity, remote[..i], raw, imported, skipped, failed)
      {
        var uid := remote[i];
        MaxOneMore(last, remote, i);
        if uid > maxUid { maxUid := uid; }
        var outcome := ItemOutcome(st, f, r.validity, uid, raw(uid));
        OneItemMore(old(st), st, f, r.validity, remote, raw, i, imported, skipped, failed, outcome);
        st := ItemStep(st, f, r.validity, uid, raw(uid));
        match outcome
        case Imported => imported := imported + 1;
        case Skipped => skipped := skipped + 1;
        case Failed => failed := failed + 1;
      }
      assert remote[..|remote|] == remote;
      BatchDone(old(st), st, f, r, raw, imported, skipped, failed);
      st := Finish(st, f, maxUid);
    }
  }

  // ---- Any interleaving of passes ----

  /** The database, and the messages that some worker has found unknown and is about to import. A
      worker may get to it late, so the check may no longer hold by then. */
  datatype World = World(st: State, open: multiset<Key>)

  datatype Step =
    | Check(folder: Folder, validity: nat, uid: nat)
    | ImportOpen(folder: Folder, validity: nat, uid: nat, raw: Raw)
    | EndOfPass(folder: Folder, maxUid: nat)

  predicate Enabled(w: World, step: Step) {
    step.ImportOpen? ==> Key(step.folder, step.validity, step.uid) in w.open
  }

  function Apply(w: World, step: Step): World {
    match step
    case Check(f, v, uid) => if Known(w.st, f, v, uid) then w else w.(open := w.open + multiset{Key(f, v, uid)})
    case ImportOpen(f, v, uid, raw) => World(Import(w.st, f, uid, raw), w.open - multiset{Key(f, v, uid)})
    case EndOfPass(f, m) => w.(st := Finish(w.st, f, m))
  }

  function Run(w: World, steps: seq<Step>): World {
    if steps == [] then w else Apply(Run(w, steps[..|steps| - 1]), steps[|steps| - 1])
  }

  predicate IsRun(w: World, steps: seq<Step>) {
    steps == [] || (IsRun(w, steps[..|steps| - 1]) && Enabled(Run(w, steps[..|steps| - 1]), steps[|steps| - 1]))
  }

  ghost predicate InsertsRecorded(st: State) {
    && (forall i, j :: 0 <= i < j < |st.inserts| ==> st.inserts[i] != st.inserts[j])
    && (forall k :: k in st.inserts ==> k in st.records)
  }

  /** Over any interleaving of the passes of any number of workers, stale checks included: no key
      leads to two local messages, records stay, and no folder's last UID goes back. */
  lemma {:induction false} InsertedAtMostOnce(w: World, steps: seq<Step>)
    requires InsertsRecorded(w.st) && IsRun(w, steps)
    ensures InsertsRecorded(Run(w, steps).st)
    ensures w.st.records <= Run(w, steps).st.records && w.st.inserts <= Run(w, steps).st.inserts
    ensures forall f :: LastUid(w.st, f) <= LastUid(Run(w, steps).st, f)
  {
    if steps != [] {
      InsertedAtMostOnce(w, steps[..|steps| - 1]);
      StepInsertsOnce(Run(w, steps[..|steps| - 1]), steps[|steps| - 1]);
    }
  }

  lemma StepInsertsOnce(w: World, step: Step)
    requires InsertsRecorded(w.st)
    ensures InsertsRecorded(Apply(w, step).st)
    ensures w.st.records <= Apply(w, step).st.records && w.st.inserts <= Apply(w, step).st.inserts
    ensures forall f :: LastUid(w.st, f) <= LastUid(Apply(w, step).st, f)
  {
  }

  /** The step imports the message of this key: it is found locally, or it can be inserted. */
  predicate Settles(step: Step, k: Key) {
    step.ImportOpen? && step.raw.Raw? && Key(step.folder, step.raw.validity, step.uid) == k
    && (step.raw.present || step.raw.insertable)
  }

  /** The first step of the run that does. */
  ghost predicate FirstSettles(steps: seq<Step>, i: nat, k: Key) {
    i < |steps| && Settles(steps[i], k) && forall j :: 0 <= j < i ==> !Settles(steps[j], k)
  }

  ghost predicate FirstInserts(steps: seq<Step>, i: nat, k: Key) {
    FirstSettles(steps, i, k) && !steps[i].raw.present
  }

  /** Over any interleaving, a message is recorded exactly when it was, or some import settles it; and
      it is inserted exactly when it was, or it was not recorded and the first import that settles it
      does not find it in the local folder. A message found there is never inserted again. */
  lemma {:induction false} InsertedExactlyWhen(w: World, steps: seq<Step>, k: Key)
    ensures var st := Run(w, steps).st;
            && (k in st.records <==> k in w.st.records || exists i :: FirstSettles(steps, i, k))
            && (k in st.inserts <==>
                  k in w.st.inserts || (k !in w.st.records && exists i :: FirstInserts(steps, i, k)))
  {
    if steps != [] {
      InsertedExactlyWhen(w, steps[..|steps| - 1], k);
      StepInserts(Run(w, steps[..|steps| - 1]), steps[|steps| - 1], k);
      OneStepMore(steps, k);
    }
  }

  lemma StepInserts(w: World, step: Step, k: Key)
    ensures var st := Apply(w, step).st;
            && (k in st.records <==> k in w.st.records || Settles(step, k))
            && (k in st.inserts <==>
                  k in w.st.inserts || (k !in w.st.records && Settles(step, k) && !step.raw.present))
  {
  }

  lemma OneStepMore(steps: seq<Step>, k: Key)
    requires steps != []
    ensures var front, last := steps[..|steps| - 1], steps[|steps| - 1];
            && ((exists i :: FirstSettles(steps, i, k)) <==>
                  (exists i :: FirstSettles(front, i, k)) || Settles(last, k))
            && ((exists i :: FirstInserts(steps, i, k)) <==>
                  (exists i :: FirstInserts(front, i, k))
                  || (Settles(last, k) && !last.raw.present && forall i :: !FirstSettles(front, i, k)))
  {
    var n: nat := |steps| - 1;
    var front, last := steps[..n], steps[n];
    forall i: nat | i < n ensures FirstSettles(front, i, k) <==> FirstSettles(steps, i, k) {
      assert forall j :: 0 <= j <= i ==> front[j] == steps[j];
    }
    forall i: nat | FirstSettles(front, i, k)
      ensures FirstSettles(steps, i, k) && (front[i].raw.present <==> steps[i].raw.present)
    {
    }
    if Settles(last, k) {
      var first := Earliest(steps, k, n);
      assert first < n ==> FirstSettles(front, first, k);
      assert first == n && !last.raw.present ==> FirstInserts(steps, n, k);
    }
    forall i | FirstInserts(steps, i, k) && i != n ensures FirstInserts(front, i, k) {
    }
    forall i | FirstInserts(front, i, k) ensures FirstInserts(steps, i, k) {
    }
  }

  lemma {:induction false} Earliest(steps: seq<Step>, k: Key, i: nat) returns (least: nat)
    requires i < |steps| && Settles(steps[i], k)
    ensures FirstSettles(steps, least, k)
  {
    if j: nat :| j < i && Settles(steps[j], k) {
      least := Earliest(steps, k, j);
    } else {
      least := i;
    }
  }

  /** Two workers both find a message unknown; the one that comes second inserts nothing. */
  lemma StaleCheckInsertsNothing(w: World, f: Folder, v: nat, uid: nat, raw: Raw)
    requires Key(f, v, uid) !in w.st.records && raw.Raw? && raw.validity == v && !raw.present && raw.insertable
    ensures var steps := [Check(f, v, uid), Check(f, v, uid), ImportOpen(f, v, uid, raw), ImportOpen(f, v, uid, raw)];
            IsRun(w, steps) && Run(w, steps).st.inserts == w.st.inserts + [Key(f, v, uid)]
  {
    var check, go := Check(f, v, uid), ImportOpen(f, v, uid, raw);
    BothChecked(w, f, v, uid);
    Extend(w, [check, check], go);
    Extend(w, [check, check] + [go], go);
    assert [check, check] + [go] + [go] == [check, check, go, go];
  }

  lemma BothChecked(w: World, f: Folder, v: nat, uid: nat)
    requires Key(f, v, uid) !in w.st.records
    ensures var steps := [Check(f, v, uid), Check(f, v, uid)];
            && IsRun(w, steps)
            && Run(w, steps) == World(w.st, w.open + multiset{Key(f, v, uid)} + multiset{Key(f, v, uid)})
  {
    Extend(w, [], Check(f, v, uid));
    Extend(w, [] + [Check(f, v, uid)], Check(f, v, uid));
    assert [] + [Check(f, v, uid)] + [Check(f, v, uid)] == [Check(f, v, uid), Check(f, v, uid)];
  }

  lemma Extend(w: World, steps: seq<Step>, step: Step)
    requires IsRun(w, steps) && Enabled(Run(w, steps), step)
    ensures IsRun(w, steps + [step]) && Run(w, steps + [step]) == Apply(Run(w, steps), step)
  {
    assert (steps + [step])[..|steps|] == steps;
  }

  // ---- What is recorded ----

  /** Importing this message does not fail. */
  predicate Works(raw: Raw) { raw.Raw? && (raw.present || raw.insertable) }

  ghost predicate StableValidity(v: nat, raw: nat -> Raw) {
    forall u: nat :: raw(u).Raw? ==> raw(u).validity == v
  }

  /** Under UIDVALIDITY `v`, `st` records what `st0` did, those of `seen` whose import works, and
      nothing else. */
  ghost predicate RecordsAre(st0: State, st: State, f: Folder, v: nat, seen: seq<nat>, raw: nat -> Raw) {
    forall u: nat :: Key(f, v, u) in st.records <==> Key(f, v, u) in st0.records || (u in seen && Works(raw(u)))
  }

  lemma ItemRecords(st0: State, st: State, f: Folder, v: nat, seen: seq<nat>, uid: nat, raw: nat -> Raw)
    requires StableValidity(v, raw) && RecordsAre(st0, st, f, v, seen, raw)
    ensures RecordsAre(st0, ItemStep(st, f, v, uid, raw(uid)), f, v, seen + [uid], raw)
  {
    var t := ItemStep(st, f, v, uid, raw(uid));
    forall u: nat
      ensures Key(f, v, u) in t.records <==> Key(f, v, u) in st0.records || (u in seen + [uid] && Works(raw(u)))
    {
      assert Key(f, v, u) in st.records <==> Key(f, v, u) in st0.records || (u in seen && Works(raw(u)));
    }
  }

  lemma {:induction false} ItemsRecord(st0: State, st: State, f: Folder, v: nat, seen: seq<nat>, batch: seq<nat>,
        raw: nat -> Raw)
    requires StableValidity(v, raw) && RecordsAre(st0, st, f, v, seen, raw)
    ensures RecordsAre(st0, Items(st, f, v, batch, raw), f, v, seen + batch, raw)
  {
    if batch == [] {
      assert seen + batch == seen;
    } else {
      var front, uid := batch[..|batch| - 1], batch[|batch| - 1];
      ItemsRecord(st0, st, f, v, seen, front, raw);
      ItemRecords(st0, Items(st, f, v, front, raw), f, v, seen + front, uid, raw);
      assert seen + batch == seen + front + [uid];
    }
  }

  /** Under a stable UIDVALIDITY, a message of the batch fails exactly when it is not recorded yet and its
      import does not work; it is imported exactly when it is neither recorded nor listed twice, and is
      readable, insertable and not in the local folder. */
  lemma OutcomeIs(st: State, f: Folder, v: nat, batch: seq<nat>, raw: nat -> Raw, i: nat)
    requires StableValidity(v, raw) && i < |batch|
    ensures var outcome, m := Outcomes(st, f, v, batch, raw)[i], raw(batch[i]);
            var known := Key(f, v, batch[i]) in st.records;
            && (outcome == Failed <==> !known && !Works(m))
            && (outcome == Imported <==> !known && batch[i] !in batch[..i] && Works(m) && !m.present)
  {
    var before := Items(st, f, v, batch[..i], raw);
    ItemsRecord(st, st, f, v, [], batch[..i], raw);
    assert [] + batch[..i] == batch[..i];
    assert Key(f, v, batch[i]) in before.records <==>
           Key(f, v, batch[i]) in st.records || (batch[i] in batch[..i] && Works(raw(batch[i])));
  }

  /** The first `n` of a number of passes, each over the state the remote mailbox is then found in. */
  function Passes(st: State, f: Folder, rs: seq<Remote>, raw: nat -> Raw, n: nat): State
    requires n <= |rs|
  {
    if n == 0 then st else Pass(Passes(st, f, rs, raw, n - 1), f, rs[n - 1], raw)
  }

  /** The last UID after them, and the messages they listed. */
  function LastAfter(start: nat, rs: seq<Remote>, n: nat): (last: nat)
    requires n <= |rs|
    ensures last >= start
  {
    if n == 0 then start
    else var before := LastAfter(start, rs, n - 1); MaxOf(before, FetchNew(rs[n - 1], before))
  }

  function SeenBy(start: nat, rs: seq<Remote>, n: nat): seq<nat>
    requires n <= |rs|
  {
    if n == 0 then [] else SeenBy(start, rs, n - 1) + FetchNew(rs[n - 1], LastAfter(start, rs, n - 1))
  }

  /** Under a stable UIDVALIDITY, whatever the mailbox looks like at each pass, in whatever order it
      is delivered, with messages coming and going: exactly those messages are recorded that were
      before, or that a pass listed and whose import worked. */
  lemma {:induction false} RecordsExactlyWhatWorks(st: State, f: Folder, rs: seq<Remote>, v: nat, raw: nat -> Raw,
        n: nat)
    requires n <= |rs| && (forall i :: 0 <= i < n ==> rs[i].validity == v) && StableValidity(v, raw)
    ensures LastUid(Passes(st, f, rs, raw, n), f) == LastAfter(LastUid(st, f), rs, n)
    ensures RecordsAre(st, Passes(st, f, rs, raw, n), f, v, SeenBy(LastUid(st, f), rs, n), raw)
  {
    if n > 0 {
      RecordsExactlyWhatWorks(st, f, rs, v, raw, n - 1);
      PassRecords(st, Passes(st, f, rs, raw, n - 1), f, rs[n - 1], SeenBy(LastUid(st, f), rs, n - 1), raw);
    }
  }

  lemma PassRecords(st0: State, st: State, f: Folder, r: Remote, seen: seq<nat>, raw: nat -> Raw)
    requires StableValidity(r.validity, raw) && RecordsAre(st0, st, f, r.validity, seen, raw)
    ensures LastUid(Pass(st, f, r, raw), f) == MaxOf(LastUid(st, f), FetchNew(r, LastUid(st, f)))
    ensures RecordsAre(st0, Pass(st, f, r, raw), f, r.validity, seen + FetchNew(r, LastUid(st, f)), raw)
  {
    var batch := FetchNew(r, LastUid(st, f));
    ItemsRecord(st0, st, f, r.validity, seen, batch, raw);
    ItemsKeepLast(st, f, r.validity, batch, raw);
  }

  // ---- What is listed ----

  lemma {:induction false} AboveMeans(r: Remote, uids: seq<nat>, after: nat, u: nat)
    ensures u in Above(r, uids, after) <==> u in uids && Listed(r, after, u)
  {
    if uids != [] {
      AboveMeans(r, uids[1..], after, u);
      assert uids == [uids[0]] + uids[1..];
    }
  }

  lemma FetchIsPrefix(r: Remote, after: nat)
    ensures var all := Above(r, r.uids, after); FetchNew(r, after) == all[..Min(BATCH, |all|)]
  {
    var all := Above(r, r.uids, after);
    if r.uidNext <= after + 1 && all != [] {
      AboveMeans(r, r.uids, after, all[0]);
    }
    assert all[..|all|] == all;
  }

  /** The pass was offered message `u` and did not take it, for the batch was full. */
  predicate LeftOut(r: Remote, last: nat, u: nat) {
    u in r.uids && Listed(r, last, u) && u !in FetchNew(r, last)
  }

  /** A message left out is listed by the next pass exactly when its UID exceeds all of the batch. */
  lemma ListedNextExactlyWhen(r: Remote, last: nat, u: nat)
    requires LeftOut(r, last, u)
    ensures Listed(r, MaxOf(last, FetchNew(r, last)), u) <==> forall b :: b in FetchNew(r, last) ==> b < u
  {
  }

  /** With every message of the batch it holds all smaller ones that were offered. */
  ghost predicate DownClosed(r: Remote, last: nat) {
    forall u, b :: u in r.uids && Listed(r, last, u) && b in FetchNew(r, last) && u <= b ==> u in FetchNew(r, last)
  }

  /** A pass passes no message over, for any order of delivery, exactly when its batch is closed
      under smaller UIDs, which the server's answer shows. */
  lemma NothingPassedOverExactlyWhen(r: Remote, last: nat)
    ensures (forall u :: LeftOut(r, last, u) ==> Listed(r, MaxOf(last, FetchNew(r, last)), u)) <==> DownClosed(r, last)
  {
    var batch := FetchNew(r, last);
    forall u | LeftOut(r, last, u)
      ensures Listed(r, MaxOf(last, batch), u) <==> forall b :: b in batch ==> b < u
    {
      ListedNextExactlyWhen(r, last, u);
    }
    if forall u :: LeftOut(r, last, u) ==> Listed(r, MaxOf(last, batch), u) {
      forall u, b | u in r.uids && Listed(r, last, u) && b in batch && u <= b ensures u in batch {
        assert LeftOut(r, last, u) ==> Listed(r, MaxOf(last, batch), u);
      }
    }
  }

  /** A mailbox over time: UIDs are below UIDNEXT, a new message gets one that is at least the UIDNEXT
      seen before, and messages may disappear. */
  ghost predicate Mailbox(rs: seq<Remote>) {
    && (forall i :: 0 <= i < |rs| ==> BelowNext(rs[i]))
    && (forall i, j :: 0 <= i < j < |rs| ==> OnlyNewArrive(rs[i], rs[j]))
  }

  predicate BelowNext(r: Remote) {
    forall u :: u in r.uids ==> u < r.uidNext
  }

  predicate OnlyNewArrive(r: Remote, later: Remote) {
    forall u :: u in later.uids ==> u in r.uids || r.uidNext <= u
  }

  /** After pass `i`, every message of its mailbox up to the last UID has been listed by some pass. */
  ghost predicate CaughtUp(start: nat, rs: seq<Remote>, i: nat)
    requires i < |rs|
  {
    forall u :: u in rs[i].uids && start < u <= LastAfter(start, rs, i + 1) ==> u in SeenBy(start, rs, i + 1)
  }

  ghost predicate ClosedAt(start: nat, rs: seq<Remote>, i: nat)
    requires i < |rs|
  {
    DownClosed(rs[i], LastAfter(start, rs, i))
  }

  lemma {:induction false} SeenIsBelow(start: nat, rs: seq<Remote>, n: nat)
    requires n <= |rs|
    ensures forall u :: u in SeenBy(start, rs, n) ==> u <= LastAfter(start, rs, n)
  {
    if n > 0 { SeenIsBelow(start, rs, n - 1); }
  }

  lemma SeenStays(start: nat, rs: seq<Remote>, i: nat, k: nat, u: nat)
    requires i <= k <= |rs| && u in SeenBy(start, rs, i)
    ensures u in SeenBy(start, rs, k)
  {
    var more := SeenSince(start, rs, i, k);
    InFront(SeenBy(start, rs, i), more, u);
  }

  lemma InFront(front: seq<nat>, more: seq<nat>, u: nat)
    requires u in front
    ensures u in front + more
  {
  }

  lemma {:induction false} SeenSince(start: nat, rs: seq<Remote>, i: nat, k: nat) returns (more: seq<nat>)
    requires i <= k <= |rs|
    ensures SeenBy(start, rs, k) == SeenBy(start, rs, i) + more
    decreases k
  {
    if i == k {
      more := [];
    } else {
      var before := SeenSince(start, rs, i, k - 1);
      var batch := SeenNext(start, rs, k - 1);
      more := before + batch;
      Associates(SeenBy(start, rs, i), before, batch);
    }
  }

  lemma {:induction false} SeenNext(start: nat, rs: seq<Remote>, n: nat) returns (batch: seq<nat>)
    requires n < |rs|
    ensures SeenBy(start, rs, n + 1) == SeenBy(start, rs, n) + batch
  {
    batch := FetchNew(rs[n], LastAfter(start, rs, n));
  }

  lemma Associates(a: seq<nat>, b: seq<nat>, c: seq<nat>)
    ensures a + b + c == a + (b + c)
  {
  }

  /** A last UID above the start is that of a message in some batch. */
  lemma {:induction false} LastCameFrom(start: nat, rs: seq<Remote>, i: nat) returns (j: nat)
    requires i <= |rs| && LastAfter(start, rs, i) > start
    ensures j < i && LastAfter(start, rs, j + 1) == LastAfter(start, rs, i)
    ensures LastAfter(start, rs, i) in FetchNew(rs[j], LastAfter(start, rs, j))
    decreases i
  {
    if LastAfter(start, rs, i) == LastAfter(start, rs, i - 1) {
      j := LastCameFrom(start, rs, i - 1);
    } else {
      j := i - 1;
    }
  }

  lemma FetchedIsThere(r: Remote, last: nat, u: nat)
    requires u in FetchNew(r, last)
    ensures u in r.uids && Listed(r, last, u)
  {
    FetchIsPrefix(r, last);
    AboveMeans(r, r.uids, last, u);
  }

  /** Closed batches leave nothing behind. */
  lemma {:induction false} ClosedCatchesUp(start: nat, rs: seq<Remote>, i: nat)
    requires Mailbox(rs) && i < |rs| && forall k :: 0 <= k <= i ==> ClosedAt(start, rs, k)
    ensures CaughtUp(start, rs, i)
    decreases i
  {
    var last := LastAfter(start, rs, i);
    assert ClosedAt(start, rs, i) && BelowNext(rs[i]);
    forall u | u in rs[i].uids && start < u <= LastAfter(start, rs, i + 1) ensures u in SeenBy(start, rs, i + 1) {
      if u > last {
        NewlySeen(rs[i], last, u);
      } else {
        var j := LastCameFrom(start, rs, i);
        ClosedCatchesUp(start, rs, j);
        SeenBefore(start, rs, i, j, u);
      }
    }
  }

  lemma NewlySeen(r: Remote, last: nat, u: nat)
    requires DownClosed(r, last) && u in r.uids && last < u < r.uidNext && u <= MaxOf(last, FetchNew(r, last))
    ensures u in FetchNew(r, last)
  {
  }

  lemma SeenBefore(start: nat, rs: seq<Remote>, i: nat, j: nat, u: nat)
    requires Mailbox(rs) && j < i < |rs| && CaughtUp(start, rs, j) && u in rs[i].uids
    requires LastAfter(start, rs, j + 1) == LastAfter(start, rs, i) && start < u <= LastAfter(start, rs, i)
    requires LastAfter(start, rs, i) in FetchNew(rs[j], LastAfter(start, rs, j))
    ensures u in SeenBy(start, rs, i)
  {
    FetchedIsThere(rs[j], LastAfter(start, rs, j), LastAfter(start, rs, i));
    assert OnlyNewArrive(rs[j], rs[i]);
    SeenStays(start, rs, j + 1, i, u);
  }

  lemma NewlyFetched(start: nat, rs: seq<Remote>, i: nat, u: nat)
    requires i < |rs| && u in SeenBy(start, rs, i + 1) && u !in SeenBy(start, rs, i)
    ensures u in FetchNew(rs[i], LastAfter(start, rs, i))
  {
    assert SeenBy(start, rs, i + 1) == SeenBy(start, rs, i) + FetchNew(rs[i], LastAfter(start, rs, i));
  }

  lemma CaughtUpNeedsClosed(start: nat, rs: seq<Remote>, i: nat)
    requires i < |rs| && CaughtUp(start, rs, i)
    ensures ClosedAt(start, rs, i)
  {
    var r, last := rs[i], LastAfter(start, rs, i);
    SeenIsBelow(start, rs, i);
    forall u, b | u in r.uids && Listed(r, last, u) && b in FetchNew(r, last) && u <= b ensures u in FetchNew(r, last) {
      assert u <= MaxOf(last, FetchNew(r, last)) && last < u;
      NewlyFetched(start, rs, i, u);
    }
  }

  /** Over any number of passes, from any last UID, while messages come and go: after each pass every
      message up to the last UID has been listed exactly when every batch was closed under smaller
      UIDs. */
  lemma CaughtUpExactlyWhenClosed(start: nat, rs: seq<Remote>)
    requires Mailbox(rs)
    ensures (forall i :: 0 <= i < |rs| ==> CaughtUp(start, rs, i))
            <==> (forall i :: 0 <= i < |rs| ==> ClosedAt(start, rs, i))
  {
    if forall i :: 0 <= i < |rs| ==> CaughtUp(start, rs, i) {
      forall i | 0 <= i < |rs| ensures ClosedAt(start, rs, i) {
        CaughtUpNeedsClosed(start, rs, i);
      }
    }
    if forall i :: 0 <= i < |rs| ==> ClosedAt(start, rs, i) {
      forall i | 0 <= i < |rs| ensures CaughtUp(start, rs, i) {
        ClosedCatchesUp(start, rs, i);
      }
    }
  }

  predicate AscendingUids(uids: seq<nat>) {
    forall i, j :: 0 <= i < j < |uids| ==> uids[i] < uids[j]
  }

  lemma {:induction false} AboveAscends(r: Remote, uids: seq<nat>, after: nat)
    requires AscendingUids(uids)
    ensures AscendingUids(Above(r, uids, after))
  {
    if uids != [] {
      var rest := Above(r, uids[1..], after);
      AboveAscends(r, uids[1..], after);
      forall k | 0 <= k < |rest| ensures uids[0] < rest[k] {
        AboveMeans(r, uids[1..], after, rest[k]);
        var i :| 0 <= i < |uids| - 1 && uids[1..][i] == rest[k];
        assert uids[i + 1] == rest[k];
      }
    }
  }

  /** A server that delivers in ascending order gives closed batches. */
  lemma AscendingIsClosed(r: Remote, last: nat)
    requires AscendingUids(r.uids)
    ensures DownClosed(r, last)
  {
    var all := Above(r, r.uids, last);
    AboveAscends(r, r.uids, last);
    FetchIsPrefix(r, last);
    var n := Min(BATCH, |all|);
    forall u, b | u in r.uids && Listed(r, last, u) && b in FetchNew(r, last) && u <= b ensures u in FetchNew(r, last) {
      AboveMeans(r, r.uids, last, u);
      var i :| 0 <= i < |all| && all[i] == u;
      var k :| 0 <= k < n && all[..n][k] == b;
      assert i < n ==> all[..n][i] == u;
    }
  }

  // ---- Progress ----

  lemma {:induction false} AboveTwice(r: Remote, uids: seq<nat>, a: nat, b: nat)
    requires a <= b
    ensures Above(r, Above(r, uids, a), b) == Above(r, uids, b)
  {
    if uids != [] { AboveTwice(r, uids[1..], a, b); }
  }

  lemma {:induction false} AboveJoin(r: Remote, x: seq<nat>, y: seq<nat>, after: nat)
    ensures Above(r, x + y, after) == Above(r, x, after) + Above(r, y, after)
  {
    if x == [] {
      assert x + y == y;
    } else {
      assert (x + y)[1..] == x[1..] + y;
      AboveJoin(r, x[1..], y, after);
    }
  }

  lemma {:induction false} AboveAll(r: Remote, uids: seq<nat>, after: nat)
    ensures (forall u :: u in uids ==> Listed(r, after, u)) ==> Above(r, uids, after) == uids
    ensures (forall u :: u in uids ==> !Listed(r, after, u)) ==> Above(r, uids, after) == []
  {
    if uids != [] {
      AboveAll(r, uids[1..], after);
      assert uids[0] in uids && forall u :: u in uids[1..] ==> u in uids;
    }
  }

  lemma {:induction false} AboveDistinct(r: Remote, uids: seq<nat>, after: nat)
    requires Distinct(uids)
    ensures Distinct(Above(r, uids, after))
  {
    if uids != [] {
      AboveDistinct(r, uids[1..], after);
      AboveMeans(r, uids[1..], after, uids[0]);
    }
  }

  /** A closed batch takes the first hundred of what is left, and leaves the rest to the next pass. */
  lemma ClosedPassLeavesRest(r: Remote, last: nat)
    requires Distinct(r.uids) && DownClosed(r, last)
    ensures var all := Above(r, r.uids, last);
            Above(r, r.uids, MaxOf(last, FetchNew(r, last))) == all[Min(BATCH, |all|)..]
  {
    var all := Above(r, r.uids, last);
    var n := Min(BATCH, |all|);
    var m := MaxOf(last, FetchNew(r, last));
    FetchIsPrefix(r, last);
    AboveDistinct(r, r.uids, last);
    AboveTwice(r, r.uids, last, m);
    assert all == all[..n] + all[n..];
    AboveJoin(r, all[..n], all[n..], m);
    AboveAll(r, all[..n], m);
    forall u | u in all[n..] ensures Listed(r, m, u) {
      RestIsAbove(r, last, u);
    }
    AboveAll(r, all[n..], m);
  }

  lemma RestIsAbove(r: Remote, last: nat, u: nat)
    requires Distinct(Above(r, r.uids, last)) && DownClosed(r, last)
    requires var all := Above(r, r.uids, last); u in all[Min(BATCH, |all|)..]
    ensures Listed(r, MaxOf(last, FetchNew(r, last)), u)
  {
    var all := Above(r, r.uids, last);
    var n := Min(BATCH, |all|);
    FetchIsPrefix(r, last);
    var k :| 0 <= k < |all| - n && all[n..][k] == u;
    assert all[n + k] == u && u in all;
    AboveMeans(r, r.uids, last, u);
    assert u !in all[..n];
    NothingPassedOverExactlyWhen(r, last);
    assert LeftOut(r, last, u);
  }

  /** Once the mailbox stays the same and its batches are closed, one pass per started hundred of
      messages above the last UID lists them all. */
  lemma QuietMailboxIsDone(start: nat, r: Remote, rs: seq<Remote>)
    requires Distinct(r.uids)
    requires (forall i :: 0 <= i < |rs| ==> rs[i] == r) && forall i :: 0 <= i < |rs| ==> ClosedAt(start, rs, i)
    requires |rs| * BATCH >= |Above(r, r.uids, start)|
    ensures Above(r, r.uids, LastAfter(start, rs, |rs|)) == []
  {
    LeftAfter(start, r, rs, |rs|);
  }

  /** So it is with ascending delivery. */
  lemma AscendingMailboxIsDone(start: nat, r: Remote, rs: seq<Remote>)
    requires AscendingUids(r.uids) && forall i :: 0 <= i < |rs| ==> rs[i] == r
    requires |rs| * BATCH >= |Above(r, r.uids, start)|
    ensures Above(r, r.uids, LastAfter(start, rs, |rs|)) == []
  {
    forall i | 0 <= i < |rs| ensures ClosedAt(start, rs, i) {
      AscendingIsClosed(r, LastAfter(start, rs, i));
    }
    QuietMailboxIsDone(start, r, rs);
  }

  lemma {:induction false} LeftAfter(start: nat, r: Remote, rs: seq<Remote>, n: nat)
    requires n <= |rs| && Distinct(r.uids)
    requires (forall i :: 0 <= i < |rs| ==> rs[i] == r) && forall i :: 0 <= i < |rs| ==> ClosedAt(start, rs, i)
    ensures var all := Above(r, r.uids, start);
            Above(r, r.uids, LastAfter(start, rs, n)) == all[Min(n * BATCH, |all|)..]
  {
    if n > 0 {
      LeftAfter(start, r, rs, n - 1);
      assert ClosedAt(start, rs, n - 1);
      LeftAfterOneMore(r, LastAfter(start, rs, n - 1), Above(r, r.uids, start), n);
    }
  }

  lemma LeftAfterOneMore(r: Remote, last: nat, all: seq<nat>, n: nat)
    requires Distinct(r.uids) && DownClosed(r, last) && n > 0
    requires Above(r, r.uids, last) == all[Min((n - 1) * BATCH, |all|)..]
    ensures Above(r, r.uids, MaxOf(last, FetchNew(r, last))) == all[Min(n * BATCH, |all|)..]
  {
    ClosedPassLeavesRest(r, last);
    DropTwice(all, n);
  }

  lemma DropTwice(all: seq<nat>, n: nat)
    requires n > 0
    ensures var left := all[Min((n - 1) * BATCH, |all|)..]; left[Min(BATCH, |left|)..] == all[Min(n * BATCH, |all|)..]
  {
  }

  lemma {:induction false} AboveIsAbove(r: Remote, uids: seq<nat>, after: nat, uid: nat)
    requires uid <= after
    ensures uid !in Above(r, uids, after)
  {
    AboveMeans(r, uids, after, uid);
  }

  /** Nothing at or below the last UID is ever listed again, not after a failure, and not when the
      remote mailbox comes back under another UIDVALIDITY. */
  lemma NeverListedAgain(w: World, steps: seq<Step>, f: Folder, r: Remote, uid: nat)
    requires InsertsRecorded(w.st) && IsRun(w, steps) && uid <= LastUid(w.st, f)
    ensures uid !in FetchNew(r, LastUid(Run(w, steps).st, f))
  {
    InsertedAtMostOnce(w, steps);
    AboveIsAbove(r, r.uids, LastUid(Run(w, steps).st, f), uid);
  }

  /** 101 messages, the newest delivered first. */
  function NewestFirst(): Remote { Remote(1, 102, seq(101, i requires 0 <= i < 101 => 101 - i)) }

  /** An order that is not closed: the lowest of the 101 messages is passed over, in the first pass
      and for good. */
  lemma DescendingDeliveryLosesOne(st: State, f: Folder, raw: nat -> Raw)
    requires LastUid(st, f) == 0
    ensures var r := NewestFirst();
            LeftOut(r, 0, 1) && !DownClosed(r, 0) && LastUid(Pass(st, f, r, raw), f) == 101 && FetchNew(r, 101) == []
  {
    var r := NewestFirst();
    NewestBatch();
    ItemsKeepLast(st, f, 1, FetchNew(r, 0), raw);
    assert 1 in r.uids && Listed(r, 0, 1);
  }

  lemma NewestBatch()
    ensures var r := NewestFirst();
            1 in r.uids && 1 !in FetchNew(r, 0) && 101 in FetchNew(r, 0) && MaxOf(0, FetchNew(r, 0)) == 101
  {
    var r := NewestFirst();
    assert r.uids[100] == 1;
    AboveAll(r, r.uids, 0);
    FetchIsPrefix(r, 0);
    var batch := r.uids[..100];
    assert batch[0] == 101;
    forall u | u in batch ensures 1 < u <= 101 {
      var i :| 0 <= i < 100 && batch[i] == u;
      assert r.uids[i] == u;
    }
  }

  /** A message whose import fails: the pass moves the last UID past it, so the next pass, over the
      same mailbox and even if the import would work by then, does not list it. */
  lemma FailedImportIsNotTriedAgain(f: Folder, raw: nat -> Raw)
    requires !Works(raw(1))
    ensures var r := Remote(1, 2, [1]);
            var t := Pass(State({}, [], map[]), f, r, raw);
            FetchNew(r, 0) == [1] && t.records == {} && t.inserts == [] && FetchNew(r, LastUid(t, f)) == []
  {
    var r, st := Remote(1, 2, [1]), State({}, [], map[]);
    OneMessage(r, 1);
    OneItem(st, f, 1, 1, raw);
    assert ItemStep(st, f, 1, 1, raw(1)) == st;
  }

  /** A mailbox made anew, under another UIDVALIDITY: its message has a UID below the last one of the
      old mailbox and is never listed, though nothing is recorded under the new UIDVALIDITY. */
  lemma NewMailboxIsNotListed(f: Folder, raw: nat -> Raw)
    requires raw(2) == Raw(1, false, true)
    ensures var old2, new1 := Remote(1, 3, [2]), Remote(2, 2, [1]);
            var t := Pass(State({}, [], map[]), f, old2, raw);
            t.records == {Key(f, 1, 2)} && FetchNew(new1, 0) == [1] && FetchNew(new1, LastUid(t, f)) == []
  {
    var st := State({}, [], map[]);
    OneMessage(Remote(1, 3, [2]), 2);
    OneMessage(Remote(2, 2, [1]), 1);
    OneItem(st, f, 1, 2, raw);
    assert ItemStep(st, f, 1, 2, raw(2)) == State({Key(f, 1, 2)}, [Key(f, 1, 2)], map[]);
  }

  lemma OneItem(st: State, f: Folder, v: nat, uid: nat, raw: nat -> Raw)
    ensures Items(st, f, v, [uid], raw) == ItemStep(st, f, v, uid, raw(uid)) && MaxOf(0, [uid]) == uid
  {
    assert [uid][..0] == [];
  }

  lemma OneMessage(r: Remote, uid: nat)
    requires r.uids == [uid] && 0 < uid < r.uidNext
    ensures FetchNew(r, 0) == [uid]
  {
    assert [uid][1..] == [];
    assert Above(r, [uid], 0) == [uid] + Above(r, [], 0);
  }
}
