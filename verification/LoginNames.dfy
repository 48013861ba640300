/** The migration that gives every user without a login name a new one: the local part of the
    e-mail address if it is unique, else the address, else the id, with a numeric suffix while the
    name is taken. */
module LoginNames {
  import opened Common

  /** A user row with e-mail and login name normalised; `idName` is the normalised id. */
  datatype User = User(idName: string, email: string, loginName: string)

  // ---- Suffixed names ----

  function Digit(d: nat): char
    requires d < 10
  {
    '0' + d as char
  }

  /** The decimal digits of `n`. */
  function Decimal(n: nat): (s: string)
    ensures |s| >= 1
  {
    if n < 10 then [Digit(n)] else Decimal(n / 10) + [Digit(n % 10)]
  }

  function Value(s: string): int {
    if s == "" then 0 else Value(s[..|s| - 1]) * 10 + (s[|s| - 1] as int - '0' as int)
  }

  lemma {:induction false} DecimalReadsBack(n: nat)
    ensures Value(Decimal(n)) == n
  {
    if n >= 10 {
      DecimalReadsBack(n / 10);
      assert Decimal(n)[..|Decimal(n)| - 1] == Decimal(n / 10);
    } else {
      assert Decimal(n)[..0] == "";
    }
  }

  /** The candidates in the order they are tried: the base, then `base-2`, `base-3`, ... */
  function Candidate(base: string, suffix: nat): string {
    if suffix < 2 then base else base + "-" + Decimal(suffix)
  }

  /** Two different suffixes never give the same name. */
  lemma CandidatesDiffer(base: string, j: nat, k: nat)
    requires 1 <= j < k
    ensures Candidate(base, j) != Candidate(base, k)
  {
    var b := Candidate(base, k);
    assert b[|base| + 1..] == Decimal(k);
    if j >= 2 {
      assert Candidate(base, j)[|base| + 1..] == Decimal(j);
      DecimalReadsBack(j);
      DecimalReadsBack(k);
    } else {
      assert |b| > |base|;
    }
  }

  /** `name` is the first candidate that is not taken. */
  ghost predicate IsFirstFree(name: string, base: string, used: set<string>) {
    exists k: nat :: 1 <= k <= |used| + 1 && FreeAt(name, base, used, k)
  }

  ghost predicate FreeAt(name: string, base: string, used: set<string>, k: nat) {
    && name == Candidate(base, k) && name !in used
    && forall j :: 1 <= j < k ==> Candidate(base, j) in used
  }

  /** The suffix loop. There are only as many names in use as candidates it can pass over. */
  method FirstFree(base: string, used: set<string>) returns (candidate: string)
    ensures IsFirstFree(candidate, base, used)
  {
    candidate := base;
    var suffix := 2;
    ghost var tried: set<string> := {};
    while candidate in used
      invariant suffix >= 2 && candidate == Candidate(base, suffix - 1)
      invariant tried <= used && |tried| == suffix - 2
      invariant forall j :: 1 <= j < suffix - 1 ==> Candidate(base, j) in used
      invariant forall x :: x in tried ==> exists j :: 1 <= j < suffix - 1 && x == Candidate(base, j)
      decreases |used| - |tried|
    {
      Untried(base, suffix - 1, tried);
      SubsetSmaller(tried + {candidate}, used);
      tried := tried + {candidate};
      candidate := base + "-" + Decimal(suffix);
      suffix := suffix + 1;
    }
    SubsetSmaller(tried, used);
    assert FreeAt(candidate, base, used, suffix - 1);
  }

  lemma Untried(base: string, k: nat, tried: set<string>)
    requires k >= 1 && forall x :: x in tried ==> exists j :: 1 <= j < k && x == Candidate(base, j)
    ensures Candidate(base, k) !in tried
  {
    if Candidate(base, k) in tried {
      var j :| 1 <= j < k && Candidate(base, k) == Candidate(base, j);
      CandidatesDiffer(base, j, k);
    }
  }

  lemma SubsetSmaller(a: set<string>, b: set<string>)
    requires a <= b
    ensures |a| <= |b|
  {
    assert b == a + (b - a);
  }

  // ---- The migration ----

  predicate HasAt(email: string) { '@' in email }

  /** The part before the first `@`. */
  function LocalPart(email: string): string {
    if email == "" || email[0] == '@' then "" else [email[0]] + LocalPart(email[1..])
  }

  /** How many users have an address with this local part. */
  function LocalCount(users: seq<User>, local: string): nat {
    if users == [] then 0
    else
      var last := users[|users| - 1];
      LocalCount(users[..|users| - 1], local) + if HasAt(last.email) && LocalPart(last.email) == local then 1 else 0
  }

  function Existing(users: seq<User>): set<string> {
    set u | u in users && u.loginName != "" :: u.loginName
  }

  /** What a user without a login name would be called if nothing were taken. */
  function BaseName(users: seq<User>, u: User, used: set<string>): string {
    var local := LocalPart(u.email);
    var name := if HasAt(u.email) && LocalCount(users, local) == 1 && local !in used then local else u.email;
    if name == "" then u.idName else name
  }

  /** The address is the local part, an at sign and the rest. */
  ghost predicate LocalOf(email: string, local: string) {
    |local| < |email| && email[..|local|] == local && email[|local|] == '@' && '@' !in local
  }

  /** User `i` alone has an address with this local part. */
  ghost predicate AloneWith(users: seq<User>, i: nat, local: string) {
    i < |users| && forall j :: 0 <= j < |users| ==> (LocalOf(users[j].email, local) <==> j == i)
  }

  lemma {:induction false} LocalPartIs(email: string, local: string)
    ensures LocalOf(email, local) <==> HasAt(email) && local == LocalPart(email)
  {
    if email != "" && email[0] != '@' {
      var rest := if local == "" then "" else local[1..];
      LocalPartIs(email[1..], rest);
      assert email == [email[0]] + email[1..];
      if LocalOf(email, local) {
        assert local == [email[0]] + rest;
        assert email[1..][..|rest|] == email[..|local|][1..];
      }
      if HasAt(email) && local == LocalPart(email) {
        assert email[..|local|] == [email[0]] + email[1..][..|rest|];
      }
    }
  }

  lemma {:induction false} LocalCountZero(users: seq<User>, local: string)
    ensures LocalCount(users, local) == 0 <==> forall j :: 0 <= j < |users| ==> !LocalOf(users[j].email, local)
  {
    if users != [] {
      var n := |users| - 1;
      LocalCountZero(users[..n], local);
      LocalPartIs(users[n].email, local);
      assert forall j :: 0 <= j < n ==> users[..n][j] == users[j];
    }
  }

  lemma {:induction false} LocalCountOne(users: seq<User>, i: nat, local: string)
    requires i < |users| && LocalOf(users[i].email, local)
    ensures LocalCount(users, local) == 1 <==> AloneWith(users, i, local)
  {
    var n := |users| - 1;
    LocalPartIs(users[n].email, local);
    assert forall j :: 0 <= j < n ==> users[..n][j] == users[j];
    LocalCountZero(users[..n], local);
    if i < n {
      LocalCountOne(users[..n], i, local);
      assert AloneWith(users, i, local) ==> AloneWith(users[..n], i, local);
    }
  }

  /** The name a user prefers: the local part of the address when no other user has it and it is not
      in use, or else the address, and the id in place of an empty name. */
  lemma PreferredName(users: seq<User>, i: nat, used: set<string>)
    requires i < |users|
    ensures var name, u := BaseName(users, users[i], used), users[i];
            && (forall l :: AloneWith(users, i, l) && l !in used ==> name == if l == "" then u.idName else l)
            && ((forall l :: AloneWith(users, i, l) ==> l in used) ==>
                  name == if u.email == "" then u.idName else u.email)
  {
    var local := LocalPart(users[i].email);
    LocalPartIs(users[i].email, local);
    if HasAt(users[i].email) { LocalCountOne(users, i, local); }
    forall l | AloneWith(users, i, l) ensures l == local && HasAt(users[i].email) {
      LocalPartIs(users[i].email, l);
    }
  }

  /** The names in use when user `i` is reached. */
  function UsedBefore(users: seq<User>, names: seq<string>, i: nat): set<string>
    requires i <= |names| && |names| <= |users|
  {
    Existing(users) + set k | 0 <= k < i :: names[k]
  }

  ghost predicate Named(users: seq<User>, names: seq<string>, i: nat)
    requires i < |names| && |names| <= |users|
  {
    if users[i].loginName != "" then names[i] == users[i].loginName
    else IsFirstFree(names[i], BaseName(users, users[i], UsedBefore(users, names, i)), UsedBefore(users, names, i))
  }

  predicate ExistingDistinct(users: seq<User>) {
    forall i, j :: 0 <= i < j < |users| && users[i].loginName != "" && users[j].loginName != "" ==>
      users[i].loginName != users[j].loginName
  }

  /** The first loop of the migration: the names in use, and how often each local part occurs. */
  method CollectNames(users: seq<User>) returns (used: set<string>, localCounts: map<string, nat>)
    ensures used == Existing(users) && Tallied(localCounts, users)
  {
    used, localCounts := {}, map[];
    for i := 0 to |users|
      invariant used == Existing(users[..i])
      invariant Tallied(localCounts, users[..i])
    {
      var item := users[i];
      assert users[..i + 1] == users[..i] + [item];
      OneUserMore(localCounts, users[..i], item);
      if item.loginName != "" { used := used + {item.loginName}; }
      if HasAt(item.email) {
        var l := LocalPart(item.email);
        localCounts := localCounts[l := Tally(localCounts, l) + 1];
      }
    }
    assert users[..|users|] == users;
  }

  /** A missing entry of a Go map reads as zero. */
  function Tally(counts: map<string, nat>, l: string): nat { if l in counts then counts[l] else 0 }

  ghost predicate Tallied(counts: map<string, nat>, users: seq<User>) {
    forall l: string :: Tally(counts, l) == LocalCount(users, l)
  }

  lemma OneUserMore(counts: map<string, nat>, users: seq<User>, item: User)
    requires Tallied(counts, users)
    ensures HasAt(item.email) ==>
              Tallied(counts[LocalPart(item.email) := Tally(counts, LocalPart(item.email)) + 1], users + [item])
    ensures !HasAt(item.email) ==> Tallied(counts, users + [item])
    ensures Existing(users + [item]) == Existing(users) + if item.loginName != "" then {item.loginName} else {}
  {
    assert (users + [item])[..|users|] == users;
    forall l: string
      ensures LocalCount(users + [item], l) == Tally(counts, l) +
                if HasAt(item.email) && LocalPart(item.email) == l then 1 else 0
    {
      assert Tally(counts, l) == LocalCount(users, l);
    }
  }

  /** Existing names are kept, and every other user gets the first free candidate for the name the
      rules prefer. */
  method MigrateUserLoginNames(users: seq<User>) returns (names: seq<string>)
    ensures |names| == |users|
    ensures forall i :: 0 <= i < |users| ==> Named(users, names, i)
  {
    var used, localCounts := CollectNames(users);
    names := [];
    for i := 0 to |users|
      invariant |names| == i
      invariant used == UsedBefore(users, names, i)
      invariant forall k :: 0 <= k < i ==> Named(users, names, k)
    {
      var item := users[i];
      ghost var before, taken := names, used;
      var name := item.loginName;
      if name == "" {
        var candidate := item.email;
        if HasAt(item.email) {
          var local := LocalPart(item.email);
          assert Tally(localCounts, local) == LocalCount(users, local);
          if Tally(localCounts, local) == 1 && local !in used { candidate := local; }
        }
        if candidate == "" { candidate := item.idName; }
        name := FirstFree(candidate, used);
      }
      used := used + {name};
      names := names + [name];
      OneMoreName(users, before, name, taken, used);
    }
  }

  lemma OneMoreName(users: seq<User>, before: seq<string>, name: string, taken: set<string>, used: set<string>)
    requires |before| < |users| && taken == UsedBefore(users, before, |before|) && used == taken + {name}
    requires users[|before|].loginName != "" ==> name == users[|before|].loginName
    requires users[|before|].loginName == "" ==> IsFirstFree(name, BaseName(users, users[|before|], taken), taken)
    requires forall k :: 0 <= k < |before| ==> Named(users, before, k)
    ensures var names := before + [name];
            used == UsedBefore(users, names, |names|) && forall k :: 0 <= k < |names| ==> Named(users, names, k)
  {
    var names := before + [name];
    UsedOneMore(users, before, name);
    forall k | 0 <= k < |names| ensures Named(users, names, k) {
      SameUsedBefore(users, before, name, k);
      if k < |before| { assert Named(users, before, k); }
    }
  }

  lemma SameUsedBefore(users: seq<User>, before: seq<string>, name: string, i: nat)
    requires i <= |before| < |users|
    ensures UsedBefore(users, before + [name], i) == UsedBefore(users, before, i)
  {
    assert forall k :: 0 <= k < i ==> (before + [name])[k] == before[k];
  }

  lemma UsedOneMore(users: seq<User>, before: seq<string>, name: string)
    requires |before| < |users|
    ensures UsedBefore(users, before + [name], |before| + 1) == UsedBefore(users, before, |before|) + {name}
  {
    var names := before + [name];
    forall x
      ensures x in UsedBefore(users, names, |before| + 1) <==> x in UsedBefore(users, before, |before|) + {name}
    {
      if x in UsedBefore(users, before, |before|) && x !in Existing(users) {
        var k :| 0 <= k < |before| && before[k] == x;
        assert names[k] == x;
      }
      if x in UsedBefore(users, names, |before| + 1) && x !in Existing(users) && x != name {
        var k :| 0 <= k < |names| && names[k] == x;
        assert before[k] == x;
      }
      assert names[|before|] == name;
    }
  }

  /** No user ends without a name. */
  lemma AllNamed(users: seq<User>, names: seq<string>)
    requires |names| == |users| && forall i :: 0 <= i < |users| ==> Named(users, names, i)
    requires forall u :: u in users ==> u.idName != ""
    ensures "" !in names
  {
    forall i | 0 <= i < |names| ensures names[i] != "" {
      assert users[i] in users && Named(users, names, i);
      if users[i].loginName == "" {
        var used := UsedBefore(users, names, i);
        var k: nat :| 1 <= k <= |used| + 1 && FreeAt(names[i], BaseName(users, users[i], used), used, k);
      }
    }
  }

  lemma NewIsUnused(users: seq<User>, names: seq<string>, i: nat)
    requires i < |names| == |users| && Named(users, names, i) && users[i].loginName == ""
    ensures names[i] !in UsedBefore(users, names, i)
  {
  }

  /** The unique index can be created afterwards exactly when the names that were there before were
      distinct already. */
  lemma DistinctExactlyWhen(users: seq<User>, names: seq<string>)
    requires |names| == |users| && forall i :: 0 <= i < |users| ==> Named(users, names, i)
    ensures Distinct(names) <==> ExistingDistinct(users)
  {
    if ExistingDistinct(users) {
      forall i, j | 0 <= i < j < |names| ensures names[i] != names[j] {
        assert Named(users, names, i) && Named(users, names, j);
        if users[j].loginName == "" {
          NewIsUnused(users, names, j);
        } else if users[i].loginName == "" {
          NewIsUnused(users, names, i);
          assert users[j] in users;
        }
      }
    }
    if Distinct(names) {
      forall i, j | 0 <= i < j < |users| && users[i].loginName != "" && users[j].loginName != ""
        ensures users[i].loginName != users[j].loginName
      {
        assert Named(users, names, i) && Named(users, names, j);
      }
    }
  }
}
