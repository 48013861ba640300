/** What a user may do: the limits and permissions of the regular group joined with those of the
    groups assigned to the user. The check before an assignment and the lookup after it compute
    this in two different ways. */
module Permissions {
  import opened Common
  import MaildirNames

  /** 0 means unlimited, so it is the largest limit. */
  datatype Limits = Limits(attachmentMb: nat, mailboxes: nat, smtpDaily: nat, smtpMinute: nat, imapMinute: nat,
    pop3Minute: nat)

  const DEFAULT_LIMITS := Limits(25, 9, 200, 20, 200, 150)
  const MINIMAL_LIMITS := Limits(1, 1, 1, 1, 1, 1)
  const NO_LIMITS := Limits(0, 0, 0, 0, 0, 0)

  const SUPER_ADMIN := "pg_super_admin"
  const REGULAR := "pg_regular_user"

  function MergeValue(left: nat, right: nat): nat {
    if left == 0 || right == 0 then 0 else if right > left then right else left
  }

  predicate CanGrantValue(actor: nat, requested: nat) {
    if actor == 0 then true else if requested == 0 then false else requested <= actor
  }

  function Merge(l: Limits, r: Limits): Limits {
    Limits(MergeValue(l.attachmentMb, r.attachmentMb), MergeValue(l.mailboxes, r.mailboxes),
           MergeValue(l.smtpDaily, r.smtpDaily), MergeValue(l.smtpMinute, r.smtpMinute),
           MergeValue(l.imapMinute, r.imapMinute), MergeValue(l.pop3Minute, r.pop3Minute))
  }

  predicate CanGrantLimits(actor: Limits, l: Limits) {
    && CanGrantValue(actor.attachmentMb, l.attachmentMb) && CanGrantValue(actor.mailboxes, l.mailboxes)
    && CanGrantValue(actor.smtpDaily, l.smtpDaily) && CanGrantValue(actor.smtpMinute, l.smtpMinute)
    && CanGrantValue(actor.imapMinute, l.imapMinute) && CanGrantValue(actor.pop3Minute, l.pop3Minute)
  }

  // ---- Limits form a lattice with joins ----

  /** `l` is within `bound`: joining it adds nothing. */
  predicate Within(l: Limits, bound: Limits) { Merge(bound, l) == bound }

  /** Merging is a join with top 0 and bottom 1, and granting is exactly the order of that join. */
  lemma MergeIsJoin(a: Limits, b: Limits, c: Limits)
    ensures Merge(a, a) == a && Merge(a, b) == Merge(b, a) && Merge(Merge(a, b), c) == Merge(a, Merge(b, c))
    ensures Within(MINIMAL_LIMITS, a) && Within(a, NO_LIMITS)
    ensures Within(a, c) && Within(b, c) <==> Within(Merge(a, b), c)
    ensures Within(a, b) && Within(b, a) ==> a == b
    ensures Within(a, b) && Within(b, c) ==> Within(a, c)
    ensures CanGrantLimits(b, a) <==> Within(a, b)
  {
    MergeValueIsJoin(a.attachmentMb, b.attachmentMb, c.attachmentMb);
    MergeValueIsJoin(a.mailboxes, b.mailboxes, c.mailboxes);
    MergeValueIsJoin(a.smtpDaily, b.smtpDaily, c.smtpDaily);
    MergeValueIsJoin(a.smtpMinute, b.smtpMinute, c.smtpMinute);
    MergeValueIsJoin(a.imapMinute, b.imapMinute, c.imapMinute);
    MergeValueIsJoin(a.pop3Minute, b.pop3Minute, c.pop3Minute);
  }

  predicate WithinValue(v: nat, bound: nat) { MergeValue(bound, v) == bound }

  lemma MergeValueIsJoin(a: nat, b: nat, c: nat)
    ensures MergeValue(a, a) == a && MergeValue(a, b) == MergeValue(b, a)
    ensures MergeValue(MergeValue(a, b), c) == MergeValue(a, MergeValue(b, c))
    ensures WithinValue(1, a) && WithinValue(a, 0)
    ensures WithinValue(a, c) && WithinValue(b, c) <==> WithinValue(MergeValue(a, b), c)
    ensures WithinValue(a, b) && WithinValue(b, a) ==> a == b
    ensures WithinValue(a, b) && WithinValue(b, c) ==> WithinValue(a, c)
    ensures CanGrantValue(b, a) <==> WithinValue(a, b)
  {
  }

  // ---- The tables ----

  /** A permission group as read from its row: known permissions only, limits not negative. */
  datatype Group = Group(permissions: set<string>, limits: Limits)

  type Groups = map<string, Group>

  /** `admin` users carry no groups; the override replaces the mailbox limit of other users. */
  datatype Actor = Nobody | Admin | Ordinary(permissions: set<string>, limits: Limits)

  datatype Error = NotAssignable(id: string) | NotFound(id: string) | PermissionsNotHeld | LimitsAboveOwn
  datatype Result<T> = Ok(value: T) | Err(error: Error)

  predicate Assignable(id: string) { id != "" && id != SUPER_ADMIN && id != REGULAR }

  /** `cleanIDList`: trimmed ids, without blanks, each at its first place only. */
  function CleanIds(items: seq<string>): (out: seq<string>)
    ensures forall i, j :: 0 <= i < j < |out| ==> out[i] != out[j]
  {
    if items == [] then []
    else
      var front := CleanIds(items[..|items| - 1]);
      var id := MaildirNames.Trim(items[|items| - 1], SPACES);
      if id == "" || id in front then front else front + [id]
  }

  /** What the items say, each without the white space around it. */
  ghost predicate Say(items: seq<string>, said: seq<string>) {
    |said| == |items| && forall k :: 0 <= k < |items| ==> MaildirNames.Trimmed(items[k], SPACES, said[k])
  }

  /** The ids are what the items say, blanks left out, each once, in the order of first mention. */
  ghost predicate IdsOf(said: seq<string>, out: seq<string>) {
    Distinct(out) && (forall id :: id in out <==> id in said && id != "") && ByFirstMention(out, said)
  }

  lemma {:induction false} CleanIdsAre(items: seq<string>) returns (said: seq<string>)
    ensures Say(items, said) && IdsOf(said, CleanIds(items))
  {
    if items == [] {
      said := [];
    } else {
      var n := |items| - 1;
      var id := MaildirNames.Trim(items[n], SPACES);
      var front := CleanIdsAre(items[..n]);
      MaildirNames.TrimmedExactlyWhen(items[n], SPACES, id);
      MentionOneMore(CleanIds(items[..n]), front, id);
      said := front + [id];
    }
  }

  method CleanIdList(items: seq<string>) returns (out: seq<string>)
    ensures out == CleanIds(items)
    ensures exists said :: Say(items, said) && IdsOf(said, out)
  {
    ghost var said := CleanIdsAre(items);
    out := [];
    var seen: set<string> := {};
    for i := 0 to |items|
      invariant out == CleanIds(items[..i])
      invariant forall x :: x in seen <==> x in out
    {
      var id := MaildirNames.Trim(items[i], SPACES);
      assert items[..i + 1][..i] == items[..i];
      if id != "" && id !in seen {
        seen := seen + {id};
        out := out + [id];
      }
    }
    assert items[..|items|] == items;
  }

  function Base(groups: Groups): Limits { if REGULAR in groups then groups[REGULAR].limits else DEFAULT_LIMITS }

  function BasePermissions(groups: Groups): set<string> {
    if REGULAR in groups then groups[REGULAR].permissions else {}
  }

  /** The rows of the join of the assignment table with the groups, in the order the database
      returns them: `limitsForUser` skips what is not assignable and merges the rest. */
  function LimitsOfRows(groups: Groups, rows: seq<string>): Limits {
    if rows == [] then Base(groups)
    else
      var before, id := LimitsOfRows(groups, rows[..|rows| - 1]), rows[|rows| - 1];
      if Assignable(id) && id in groups then Merge(before, groups[id].limits) else before
  }

  function PermissionsOfRows(groups: Groups, rows: seq<string>): set<string> {
    if rows == [] then BasePermissions(groups)
    else
      var before, id := PermissionsOfRows(groups, rows[..|rows| - 1]), rows[|rows| - 1];
      if Assignable(id) && id in groups then before + groups[id].permissions else before
  }

  method LimitsForUser(groups: Groups, rows: seq<string>) returns (limits: Limits)
    ensures limits == LimitsOfRows(groups, rows)
  {
    limits := DEFAULT_LIMITS;
    if REGULAR in groups { limits := groups[REGULAR].limits; }
    for i := 0 to |rows|
      invariant limits == LimitsOfRows(groups, rows[..i])
    {
      assert rows[..i + 1][..i] == rows[..i];
      if Assignable(rows[i]) && rows[i] in groups {
        limits := Merge(limits, groups[rows[i]].limits);
      }
    }
    assert rows[..|rows|] == rows;
  }

  /** The first id on the list that cannot be used, if any. */
  function FirstBad(groups: Groups, ids: seq<string>): Result<()> {
    if ids == [] then Ok(())
    else
      var r, id := FirstBad(groups, ids[..|ids| - 1]), ids[|ids| - 1];
      if r.Err? then r
      else if !Assignable(id) then Err(NotAssignable(id))
      else if id !in groups then Err(NotFound(id))
      else Ok(())
  }

  /** The merge of the groups alone, which starts from the smallest limits. */
  function GroupLimits(groups: Groups, ids: seq<string>): Limits
    requires FirstBad(groups, ids).Ok?
  {
    if ids == [] then MINIMAL_LIMITS
    else Merge(GroupLimits(groups, ids[..|ids| - 1]), groups[ids[|ids| - 1]].limits)
  }

  function GroupPermissions(groups: Groups, ids: seq<string>): set<string>
    requires FirstBad(groups, ids).Ok?
  {
    if ids == [] then {}
    else GroupPermissions(groups, ids[..|ids| - 1]) + groups[ids[|ids| - 1]].permissions
  }

  lemma {:induction false} BadPrefix(groups: Groups, ids: seq<string>, n: nat)
    requires n <= |ids| && FirstBad(groups, ids[..n]).Err?
    ensures FirstBad(groups, ids) == FirstBad(groups, ids[..n])
    decreases |ids| - n
  {
    if n < |ids| {
      assert ids[..n + 1][..n] == ids[..n];
      BadPrefix(groups, ids, n + 1);
    } else {
      assert ids[..n] == ids;
    }
  }

  lemma OneGroupMore(groups: Groups, ids: seq<string>, i: nat)
    requires i < |ids| && FirstBad(groups, ids[..i]).Ok?
    ensures !Assignable(ids[i]) ==> FirstBad(groups, ids) == Err(NotAssignable(ids[i]))
    ensures Assignable(ids[i]) && ids[i] !in groups ==> FirstBad(groups, ids) == Err(NotFound(ids[i]))
    ensures Assignable(ids[i]) && ids[i] in groups ==>
              && FirstBad(groups, ids[..i + 1]).Ok?
              && GroupLimits(groups, ids[..i + 1]) == Merge(GroupLimits(groups, ids[..i]), groups[ids[i]].limits)
  {
    assert ids[..i + 1][..i] == ids[..i];
    if !Assignable(ids[i]) || ids[i] !in groups { BadPrefix(groups, ids, i + 1); }
  }

  function LimitsAnswer(groups: Groups, ids: seq<string>): Result<Limits> {
    match FirstBad(groups, ids)
    case Ok(_) => Ok(GroupLimits(groups, ids))
    case Err(e) => Err(e)
  }

  /** `limitsForGroupIDs` */
  method LimitsForGroupIds(groups: Groups, groupIds: seq<string>) returns (r: Result<Limits>)
    ensures r == LimitsAnswer(groups, CleanIds(groupIds))
  {
    var limits := MINIMAL_LIMITS;
    var ids := CleanIdList(groupIds);
    for i := 0 to |ids|
      invariant FirstBad(groups, ids[..i]).Ok? && limits == GroupLimits(groups, ids[..i])
    {
      OneGroupMore(groups, ids, i);
      if !Assignable(ids[i]) { return Err(NotAssignable(ids[i])); }
      if ids[i] !in groups { return Err(NotFound(ids[i])); }
      limits := Merge(limits, groups[ids[i]].limits);
    }
    assert ids[..|ids|] == ids;
    return Ok(limits);
  }

  /** The value the check before an assignment looks at. */
  function EffectiveLimits(groups: Groups, ids: seq<string>): Limits
    requires FirstBad(groups, ids).Ok?
  {
    Merge(Base(groups), GroupLimits(groups, ids))
  }

  function EffectivePermissions(groups: Groups, ids: seq<string>): set<string>
    requires FirstBad(groups, ids).Ok?
  {
    BasePermissions(groups) + GroupPermissions(groups, ids)
  }

  // ---- The two computations agree ----

  /** Every user has the regular group; where it has no row, the default limits stand in for it. An
      assigned group counts if it has a row and is not one of the two built-in ones. */
  predicate Counts(groups: Groups, id: string, rows: seq<string>) {
    id in groups && (id == REGULAR || (id in rows && id !in {"", SUPER_ADMIN}))
  }

  /** The fold over the rows is the least bound of the regular group and of every counted row. */
  lemma {:induction false} RowsAreJoin(groups: Groups, rows: seq<string>, bound: Limits)
    ensures Within(LimitsOfRows(groups, rows), bound) <==>
            (REGULAR !in groups ==> Within(DEFAULT_LIMITS, bound))
            && forall id :: Counts(groups, id, rows) ==> Within(groups[id].limits, bound)
  {
    if rows != [] {
      var front, id := rows[..|rows| - 1], rows[|rows| - 1];
      RowsAreJoin(groups, front, bound);
      assert rows == front + [id];
      if Assignable(id) && id in groups {
        MergeIsJoin(LimitsOfRows(groups, front), groups[id].limits, bound);
      }
      assert forall x :: Counts(groups, x, rows) <==>
               Counts(groups, x, front) || (x == id && Assignable(x) && x in groups);
    } else {
      assert REGULAR in groups ==> Counts(groups, REGULAR, rows);
    }
  }

  lemma {:induction false} GroupsAreJoin(groups: Groups, ids: seq<string>, bound: Limits)
    requires FirstBad(groups, ids).Ok?
    ensures forall id :: id in ids ==> Assignable(id) && id in groups
    ensures Within(GroupLimits(groups, ids), bound) <==> forall id :: id in ids ==> Within(groups[id].limits, bound)
  {
    if ids == [] {
      MergeIsJoin(bound, bound, bound);
    } else {
      var front, id := ids[..|ids| - 1], ids[|ids| - 1];
      GroupsAreJoin(groups, front, bound);
      assert ids == front + [id];
      MergeIsJoin(GroupLimits(groups, front), groups[id].limits, bound);
    }
  }

  /** The limits checked before the write are the limits the user has after it, in whatever order,
      and with whatever repetitions, the database returns the assigned groups. */
  lemma LimitsAgree(groups: Groups, ids: seq<string>, rows: seq<string>)
    requires FirstBad(groups, ids).Ok? && forall id :: id in ids <==> id in rows
    ensures LimitsOfRows(groups, rows) == EffectiveLimits(groups, ids)
  {
    var a, b := LimitsOfRows(groups, rows), EffectiveLimits(groups, ids);
    SameBounds(groups, ids, rows, a);
    SameBounds(groups, ids, rows, b);
    MergeIsJoin(a, b, a);
    MergeIsJoin(b, a, b);
  }

  lemma SameBounds(groups: Groups, ids: seq<string>, rows: seq<string>, bound: Limits)
    requires FirstBad(groups, ids).Ok? && forall id :: id in ids <==> id in rows
    ensures Within(LimitsOfRows(groups, rows), bound) <==> Within(EffectiveLimits(groups, ids), bound)
  {
    RowsAreJoin(groups, rows, bound);
    GroupsAreJoin(groups, ids, bound);
    MergeIsJoin(Base(groups), GroupLimits(groups, ids), bound);
  }

  lemma {:induction false} RowsAreUnion(groups: Groups, rows: seq<string>, p: string)
    ensures p in PermissionsOfRows(groups, rows) <==>
            exists id :: Counts(groups, id, rows) && p in groups[id].permissions
  {
    if rows != [] {
      var front, id := rows[..|rows| - 1], rows[|rows| - 1];
      RowsAreUnion(groups, front, p);
      assert rows == front + [id];
    }
  }

  lemma {:induction false} GroupsAreUnion(groups: Groups, ids: seq<string>, p: string)
    requires FirstBad(groups, ids).Ok?
    ensures forall id :: id in ids ==> Assignable(id) && id in groups
    ensures p in GroupPermissions(groups, ids) <==> exists id :: id in ids && p in groups[id].permissions
  {
    if ids != [] {
      var front, id := ids[..|ids| - 1], ids[|ids| - 1];
      GroupsAreUnion(groups, front, p);
      assert ids == front + [id];
    }
  }

  lemma PermissionsAgree(groups: Groups, ids: seq<string>, rows: seq<string>)
    requires FirstBad(groups, ids).Ok? && forall id :: id in ids <==> id in rows
    ensures PermissionsOfRows(groups, rows) == EffectivePermissions(groups, ids)
  {
    forall p ensures p in PermissionsOfRows(groups, rows) <==> p in EffectivePermissions(groups, ids) {
      RowsAreUnion(groups, rows, p);
      GroupsAreUnion(groups, ids, p);
    }
  }

  // ---- Assigning groups ----

  predicate ActorCanGrant(actor: Actor, permissions: set<string>) {
    actor.Admin? || (actor.Ordinary? && permissions <= actor.permissions)
  }

  predicate ActorCanGrantLimits(actor: Actor, l: Limits) {
    actor.Admin? || (actor.Ordinary? && CanGrantLimits(actor.limits, l))
  }

  function FirstNotAssignable(ids: seq<string>): Result<()> {
    if ids == [] then Ok(())
    else
      var r, id := FirstNotAssignable(ids[..|ids| - 1]), ids[|ids| - 1];
      if r.Err? then r else if !Assignable(id) then Err(NotAssignable(id)) else Ok(())
  }

  lemma {:induction false} NotAssignablePrefix(ids: seq<string>, n: nat)
    requires n <= |ids| && FirstNotAssignable(ids[..n]).Err?
    ensures FirstNotAssignable(ids) == FirstNotAssignable(ids[..n])
    decreases |ids| - n
  {
    if n < |ids| {
      assert ids[..n + 1][..n] == ids[..n];
      NotAssignablePrefix(ids, n + 1);
    } else {
      assert ids[..n] == ids;
    }
  }

  method RequireAssignable(ids: seq<string>) returns (r: Result<()>)
    ensures r == FirstNotAssignable(ids)
  {
    for i := 0 to |ids|
      invariant FirstNotAssignable(ids[..i]).Ok?
    {
      assert ids[..i + 1][..i] == ids[..i];
      if !Assignable(ids[i]) {
        NotAssignablePrefix(ids, i + 1);
        return Err(NotAssignable(ids[i]));
      }
    }
    assert ids[..|ids|] == ids;
    return Ok(());
  }

  /** What an assignment answers. */
  function CheckAssignment(groups: Groups, groupIds: seq<string>, actor: Actor): Result<()> {
    var ids := CleanIds(groupIds);
    if FirstNotAssignable(ids).Err? then FirstNotAssignable(ids)
    else if FirstBad(groups, ids).Err? then FirstBad(groups, ids)
    else if !ActorCanGrant(actor, EffectivePermissions(groups, ids)) then Err(PermissionsNotHeld)
    else if !ActorCanGrantLimits(actor, EffectiveLimits(groups, ids)) then Err(LimitsAboveOwn)
    else Ok(())
  }

  class Rights {
    const groups: Groups
    var held: map<string, seq<string>>

    constructor (g: Groups)
      ensures groups == g && held == map[]
    {
      groups := g;
      held := map[];
    }

    method SetUserPermissionGroups(user: string, groupIds: seq<string>, actor: Actor) returns (r: Result<()>)
      modifies this
      ensures r == CheckAssignment(groups, groupIds, actor)
      ensures held == if r.Ok? then old(held)[user := CleanIds(groupIds)] else old(held)
    {
      var ids := CleanIdList(groupIds);
      var check := RequireAssignable(ids);
      if check.Err? { return check; }
      var bad := FirstBad(groups, ids);
      if bad.Err? { return bad; }
      if !ActorCanGrant(actor, EffectivePermissions(groups, ids)) { return Err(PermissionsNotHeld); }
      if !ActorCanGrantLimits(actor, EffectiveLimits(groups, ids)) { return Err(LimitsAboveOwn); }
      ReplaceGroups(user, ids);
      return Ok(());
    }

    /** The delete of the user's rows and the insert of the new ones. */
    method ReplaceGroups(user: string, ids: seq<string>)
      modifies this
      ensures held == old(held)[user := ids]
    {
      held := held[user := []];
      for i := 0 to |ids|
        invariant held == old(held)[user := ids[..i]]
      {
        assert ids[..i + 1] == ids[..i] + [ids[i]];
        held := held[user := held[user] + [ids[i]]];
      }
      assert ids[..|ids|] == ids;
    }
  }

  /** After an assignment that succeeds, the groups give the target no limit and no permission
      beyond those of an actor who is not an administrator. */
  lemma AssignedIsWithinActor(groups: Groups, groupIds: seq<string>, actor: Actor, rows: seq<string>)
    requires actor.Ordinary? && CheckAssignment(groups, groupIds, actor).Ok?
    requires forall id :: id in CleanIds(groupIds) <==> id in rows
    ensures Within(LimitsOfRows(groups, rows), actor.limits)
    ensures PermissionsOfRows(groups, rows) <= actor.permissions
  {
    var ids := CleanIds(groupIds);
    LimitsAgree(groups, ids, rows);
    PermissionsAgree(groups, ids, rows);
    MergeIsJoin(EffectiveLimits(groups, ids), actor.limits, actor.limits);
  }

  /** And no assignment is refused for its limits without one of the groups, or the regular group
      every user has, being above the actor's own. */
  lemma RefusedOnlyWhenAbove(groups: Groups, groupIds: seq<string>, actor: Actor)
    requires actor.Ordinary? && FirstBad(groups, CleanIds(groupIds)).Ok?
    ensures ActorCanGrantLimits(actor, EffectiveLimits(groups, CleanIds(groupIds)))
            <==>
            Within(Base(groups), actor.limits)
            && forall id :: id in CleanIds(groupIds) ==> id in groups && Within(groups[id].limits, actor.limits)
  {
    var ids := CleanIds(groupIds);
    GroupsAreJoin(groups, ids, actor.limits);
    MergeIsJoin(Base(groups), GroupLimits(groups, ids), actor.limits);
    MergeIsJoin(EffectiveLimits(groups, ids), actor.limits, actor.limits);
  }

  /** The first of the ids that is none of `good` is `id`. */
  ghost predicate FirstOutside(ids: seq<string>, good: set<string>, id: string) {
    exists k :: 0 <= k < |ids| && ids[k] == id && id !in good && forall l :: 0 <= l < k ==> ids[l] in good
  }

  ghost function Assignables(ids: seq<string>): set<string> { set id | id in ids && Assignable(id) }

  lemma {:induction false} FirstNotAssignableIs(ids: seq<string>, good: set<string>)
    requires forall id :: id in ids ==> (id in good <==> Assignable(id))
    ensures match FirstNotAssignable(ids)
            case Ok(_) => forall id :: id in ids ==> Assignable(id)
            case Err(e) => e.NotAssignable? && FirstOutside(ids, good, e.id)
  {
    if ids != [] {
      var front := ids[..|ids| - 1];
      assert ids == front + [ids[|ids| - 1]];
      FirstNotAssignableIs(front, good);
    }
  }

  lemma {:induction false} FirstBadIs(groups: Groups, ids: seq<string>)
    requires forall id :: id in ids ==> Assignable(id)
    ensures match FirstBad(groups, ids)
            case Ok(_) => forall id :: id in ids ==> id in groups
            case Err(e) => e.NotFound? && FirstOutside(ids, groups.Keys, e.id)
  {
    if ids != [] {
      var front := ids[..|ids| - 1];
      assert ids == front + [ids[|ids| - 1]];
      FirstBadIs(groups, front);
    }
  }

  /** The actor has every permission and limit that the regular group or a listed group gives. */
  ghost predicate HoldsAll(actor: Actor, groups: Groups, ids: seq<string>) {
    actor.Admin? || (actor.Ordinary? && BasePermissions(groups) <= actor.permissions
                     && forall id :: id in ids && id in groups ==> groups[id].permissions <= actor.permissions)
  }

  ghost predicate AboveAll(actor: Actor, groups: Groups, ids: seq<string>) {
    actor.Admin? || (actor.Ordinary? && Within(Base(groups), actor.limits)
                     && forall id :: id in ids && id in groups ==> Within(groups[id].limits, actor.limits))
  }

  /** What an assignment answers, told of the listed groups one by one: the first id that is not
      assignable, or else the first that is unknown, or else what the actor lacks. */
  lemma AssignmentAnswers(groups: Groups, groupIds: seq<string>, actor: Actor)
    ensures var r, ids := CheckAssignment(groups, groupIds, actor), CleanIds(groupIds);
            if exists id :: id in ids && !Assignable(id) then
              r.Err? && r.error.NotAssignable? && FirstOutside(ids, Assignables(ids), r.error.id)
            else if exists id :: id in ids && id !in groups then
              r.Err? && r.error.NotFound? && FirstOutside(ids, groups.Keys, r.error.id)
            else r == if !HoldsAll(actor, groups, ids) then Err(PermissionsNotHeld)
                      else if !AboveAll(actor, groups, ids) then Err(LimitsAboveOwn) else Ok(())
  {
    var ids := CleanIds(groupIds);
    FirstNotAssignableIs(ids, Assignables(ids));
    if forall id :: id in ids ==> Assignable(id) {
      FirstBadIs(groups, ids);
      if FirstBad(groups, ids).Ok? { LacksExactlyWhen(groups, groupIds, actor); }
    }
  }

  lemma LacksExactlyWhen(groups: Groups, groupIds: seq<string>, actor: Actor)
    requires FirstBad(groups, CleanIds(groupIds)).Ok?
    ensures var ids := CleanIds(groupIds);
            && (ActorCanGrant(actor, EffectivePermissions(groups, ids)) <==> HoldsAll(actor, groups, ids))
            && (ActorCanGrantLimits(actor, EffectiveLimits(groups, ids)) <==> AboveAll(actor, groups, ids))
  {
    var ids := CleanIds(groupIds);
    GroupsAreJoin(groups, ids, NO_LIMITS);
    if actor.Ordinary? {
      RefusedOnlyWhenAbove(groups, groupIds, actor);
      forall p ensures p in GroupPermissions(groups, ids) <==> exists id :: id in ids && p in groups[id].permissions {
        GroupsAreUnion(groups, ids, p);
      }
    }
  }

  datatype Override = NoOverride | Mailboxes(n: nat)

  /** The limits a user is given on sign-in: an override replaces the mailbox limit. */
  function Attached(l: Limits, o: Override): Limits {
    match o
    case NoOverride => l
    case Mailboxes(n) => l.(mailboxes := n)
  }

  /** The check does not look at the override, so the limits a user signs in with are within the
      actor's exactly when the override, if there is one, is a value the actor could grant. */
  lemma AttachedWithinExactlyWhen(groups: Groups, groupIds: seq<string>, actor: Actor, rows: seq<string>, o: Override)
    requires actor.Ordinary? && CheckAssignment(groups, groupIds, actor).Ok?
    requires forall id :: id in CleanIds(groupIds) <==> id in rows
    ensures Within(Attached(LimitsOfRows(groups, rows), o), actor.limits)
            <==> o.NoOverride? || CanGrantValue(actor.limits.mailboxes, o.n)
  {
    AssignedIsWithinActor(groups, groupIds, actor, rows);
    if o.Mailboxes? {
      MergeValueIsJoin(o.n, actor.limits.mailboxes, 0);
    }
  }

  /** An actor with nine mailboxes assigns no group at all to a user whose override says unlimited:
      the check passes, and the user signs in with more than the actor has. */
  lemma OverridePassesTheCheck()
    ensures var groups: Groups := map[REGULAR := Group({}, DEFAULT_LIMITS)];
            var actor := Ordinary({}, DEFAULT_LIMITS);
            && CheckAssignment(groups, [], actor) == Ok(())
            && !Within(Attached(LimitsOfRows(groups, []), Mailboxes(0)), actor.limits)
  {
    var groups: Groups := map[REGULAR := Group({}, DEFAULT_LIMITS)];
    var actor := Ordinary({}, DEFAULT_LIMITS);
    assert EffectiveLimits(groups, []) == DEFAULT_LIMITS;
    AttachedWithinExactlyWhen(groups, [], actor, [], Mailboxes(0));
  }
}
