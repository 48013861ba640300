/** Maildir file names: the flag suffix that `maildirPathWithFlags` writes and
    `maildirFlagsFromPath` reads back, and the file names the server makes up itself. */
module MaildirNames {
  import opened Common

  /** The separator `maildirFlagSeparator` gives outside Windows, and the one it gives there. */
  const SEPARATOR := ":2,"
  const WINDOWS_SEPARATOR := "!2,"

  predicate OccursAt(s: string, sep: string, i: int) {
    0 <= i <= |s| - |sep| && s[i..i + |sep|] == sep
  }

  /** Go's strings.LastIndex, searching downwards from `from`. */
  function LastIndexFrom(s: string, sep: string, from: int): (i: int)
    requires from <= |s| - |sep|
    ensures -1 <= i
    ensures i >= 0 ==> i <= from && OccursAt(s, sep, i)
    ensures forall j {:trigger OccursAt(s, sep, j)} :: i < j <= from ==> !OccursAt(s, sep, j)
    decreases from + 1
  {
    if from < 0 then -1
    else if OccursAt(s, sep, from) then from
    else LastIndexFrom(s, sep, from - 1)
  }

  function LastIndex(s: string, sep: string): (i: int)
    ensures i == -1 || OccursAt(s, sep, i)
    ensures forall j {:trigger OccursAt(s, sep, j)} :: i < j ==> !OccursAt(s, sep, j)
  {
    LastIndexFrom(s, sep, |s| - |sep|)
  }

  /** A name split at its last separator: what stands before it and the flags after it. */
  function BaseOf(name: string): string {
    var i := LastIndex(name, SEPARATOR);
    if i >= 0 then name[..i] else name
  }

  function FlagsOf(name: string): string {
    var i := LastIndex(name, SEPARATOR);
    if i >= 0 then name[i + |SEPARATOR|..] else ""
  }

  /** What `preserveMaildirFlags` keeps: the flags outside `managed`, first occurrences, in order. */
  function Preserved(flags: string, managed: string): (kept: string)
    ensures forall c :: c in kept <==> c in flags && c !in managed
    ensures forall i, j :: 0 <= i < j < |kept| ==> kept[i] != kept[j]
  {
    if flags == "" then ""
    else
      var before, last := flags[..|flags| - 1], flags[|flags| - 1];
      var kept := Preserved(before, managed);
      assert flags == before + [last];
      if last in managed || last in kept then kept else kept + [last]
  }

  method PreserveMaildirFlags(flags: string, managed: string) returns (kept: string)
    ensures kept == Preserved(flags, managed)
  {
    kept := "";
    for i := 0 to |flags|
      invariant kept == Preserved(flags[..i], managed)
    {
      assert flags[..i + 1][..i] == flags[..i];
      if flags[i] !in managed && flags[i] !in kept {
        kept := kept + [flags[i]];
      }
    }
    assert flags[..|flags|] == flags;
  }

  function AppendFlag(flags: string, flag: char): string {
    if flag in flags then flags else flags + [flag]
  }

  /** The flag string written for a message: foreign flags first, then S, then F. */
  function WrittenFlags(name: string, read: bool, starred: bool): string {
    var kept := Preserved(FlagsOf(name), "SF");
    var seen := if read then AppendFlag(kept, 'S') else kept;
    if starred then AppendFlag(seen, 'F') else seen
  }

  /** The base name of `maildirPathWithFlags`. */
  function WithFlags(name: string, read: bool, starred: bool): string {
    var flags := WrittenFlags(name, read, starred);
    if flags != "" then BaseOf(name) + SEPARATOR + flags else BaseOf(name)
  }

  /** `maildirFlagsFromPath`: the (read, starred) pair a file name stands for. Without any flag
      suffix a file is unread in Inbox and read in every other folder. */
  function ReadFlags(name: string, inInbox: bool): (bool, bool) {
    var i := LastIndex(name, SEPARATOR);
    var j := LastIndex(name, WINDOWS_SEPARATOR);
    if i >= 0 then ('S' in name[i + |SEPARATOR|..], 'F' in name[i + |SEPARATOR|..])
    else if j >= 0 then ('S' in name[j + |WINDOWS_SEPARATOR|..], 'F' in name[j + |WINDOWS_SEPARATOR|..])
    else (!inInbox, false)
  }

  /** The flags of a name are what follows the last occurrence of the separator. */
  ghost predicate FlagsAfter(name: string, sep: string, flags: string) {
    exists i :: OccursAt(name, sep, i) && name[i + |sep|..] == flags
                && forall j {:trigger OccursAt(name, sep, j)} :: i < j ==> !OccursAt(name, sep, j)
  }

  ghost predicate NowhereIn(name: string, sep: string) {
    forall i {:trigger OccursAt(name, sep, i)} :: !OccursAt(name, sep, i)
  }

  /** What any name says, whichever system wrote it: the flags after the last separator, that of
      Windows only where there is no other; and without one, unread exactly in Inbox. */
  lemma AnyNameReads(name: string, inInbox: bool, flags: string)
    ensures var r := ReadFlags(name, inInbox);
            && (FlagsAfter(name, SEPARATOR, flags) ==> r == ('S' in flags, 'F' in flags))
            && (NowhereIn(name, SEPARATOR) && FlagsAfter(name, WINDOWS_SEPARATOR, flags) ==>
                  r == ('S' in flags, 'F' in flags))
            && (NowhereIn(name, SEPARATOR) && NowhereIn(name, WINDOWS_SEPARATOR) ==> r == (!inInbox, false))
  {
    LastIsFlags(name, SEPARATOR, flags);
    LastIsFlags(name, WINDOWS_SEPARATOR, flags);
  }

  lemma LastIsFlags(name: string, sep: string, flags: string)
    ensures var i := LastIndex(name, sep);
            (FlagsAfter(name, sep, flags) ==> i >= 0 && name[i + |sep|..] == flags) && (NowhereIn(name, sep) <==> i < 0)
  {
    if i :| OccursAt(name, sep, i) && name[i + |sep|..] == flags
            && forall j {:trigger OccursAt(name, sep, j)} :: i < j ==> !OccursAt(name, sep, j) {
      assert i == LastIndex(name, sep);
    }
  }

  predicate NoSeparator(s: string) {
    LastIndex(s, SEPARATOR) == -1 && LastIndex(s, WINDOWS_SEPARATOR) == -1
  }

  lemma SeparatorHasComma(s: string, sep: string, i: int)
    requires sep == SEPARATOR || sep == WINDOWS_SEPARATOR
    requires OccursAt(s, sep, i)
    ensures ',' in s && s[i + 2] == ','
  {
    assert s[i + 2] == s[i..i + |sep|][2] == ',';
  }

  lemma NoCommaNoSeparator(s: string)
    requires ',' !in s
    ensures NoSeparator(s)
  {
    if LastIndex(s, SEPARATOR) >= 0 {
      SeparatorHasComma(s, SEPARATOR, LastIndex(s, SEPARATOR));
    }
    if LastIndex(s, WINDOWS_SEPARATOR) >= 0 {
      SeparatorHasComma(s, WINDOWS_SEPARATOR, LastIndex(s, WINDOWS_SEPARATOR));
    }
  }

  predicate HasForeignFlag(name: string) {
    exists c :: c in FlagsOf(name) && c != 'S' && c != 'F'
  }

  lemma WrittenFlagsMeaning(name: string, read: bool, starred: bool)
    ensures 'S' in WrittenFlags(name, read, starred) <==> read
    ensures 'F' in WrittenFlags(name, read, starred) <==> starred
    ensures WrittenFlags(name, read, starred) != "" <==> read || starred || HasForeignFlag(name)
    ensures read ==> !starred ==> WrittenFlags(name, read, starred) == Preserved(FlagsOf(name), "SF") + "S"
    ensures !read ==> starred ==> WrittenFlags(name, read, starred) == Preserved(FlagsOf(name), "SF") + "F"
    ensures read && starred ==> WrittenFlags(name, read, starred) == Preserved(FlagsOf(name), "SF") + "S" + "F"
  {
    var kept := Preserved(FlagsOf(name), "SF");
    assert 'S' in "SF" && 'F' in "SF";
    if kept != "" {
      assert kept[0] in kept;
      assert HasForeignFlag(name);
    }
    if HasForeignFlag(name) {
      var c :| c in FlagsOf(name) && c != 'S' && c != 'F';
      assert c in kept;
    }
  }

  /** Whatever the name looked like, when any flag is written the two managed flags read back. */
  lemma FlagsReadBack(name: string, read: bool, starred: bool, inInbox: bool)
    requires read || starred || HasForeignFlag(name)
    ensures ReadFlags(WithFlags(name, read, starred), inInbox) == (read, starred)
  {
    WrittenFlagsMeaning(name, read, starred);
    var kept := Preserved(FlagsOf(name), "SF");
    var base, flags := BaseOf(name), WrittenFlags(name, read, starred);
    var out := base + SEPARATOR + flags;
    assert OccursAt(out, SEPARATOR, |base|);
    var i := LastIndex(out, SEPARATOR);
    var tail := out[i + |SEPARATOR|..];
    assert tail == flags[i - |base|..];
    // The managed flags stand after the foreign ones, so no separator can hide them.
    if read {
      assert out[|base| + |SEPARATOR| + |kept|] == 'S';
      SeparatorEndsBefore(out, i, |base| + |SEPARATOR| + |kept|);
      assert tail[|base| + |kept| - i] == 'S';
    }
    if starred {
      assert out[|out| - 1] == 'F';
      SeparatorEndsBefore(out, i, |out| - 1);
      assert tail[|tail| - 1] == 'F';
    }
  }

  lemma SeparatorEndsBefore(s: string, i: int, at: int)
    requires OccursAt(s, SEPARATOR, i)
    requires i <= at < |s| && (s[at] == 'S' || s[at] == 'F')
    ensures i + |SEPARATOR| <= at
  {
    assert s[i..i + |SEPARATOR|][0] == ':' && s[i..i + |SEPARATOR|][1] == '2' && s[i..i + |SEPARATOR|][2] == ',';
    assert s[i] == SEPARATOR[0] && s[i + 1] == SEPARATOR[1] && s[i + 2] == SEPARATOR[2];
  }

  /** Reading back what was written, exactly: the one case that fails is an unread, unstarred
      message without foreign flags outside Inbox, which reads back as read. */
  lemma RoundTripExactly(name: string, read: bool, starred: bool, inInbox: bool)
    requires NoSeparator(BaseOf(name))
    ensures ReadFlags(WithFlags(name, read, starred), inInbox) == (read, starred)
       <==> inInbox || read || starred || HasForeignFlag(name)
  {
    WrittenFlagsMeaning(name, read, starred);
    if read || starred || HasForeignFlag(name) {
      FlagsReadBack(name, read, starred, inInbox);
    }
  }

  /** The failing case, on a name the server itself would give a file. */
  lemma UnreadOutsideInboxReadsBackRead()
    ensures WithFlags("1.mail", false, false) == "1.mail"
    ensures ReadFlags(WithFlags("1.mail", false, false), false) == (true, false)
  {
    NoCommaNoSeparator("1.mail");
    assert BaseOf("1.mail") == "1.mail" && FlagsOf("1.mail") == "";
  }

  /** The foreign flags of a name. */
  function Foreign(name: string): string { Preserved(FlagsOf(name), "SF") }

  /** The managed flags as they are written. */
  function Managed(read: bool, starred: bool): string {
    (if read then "S" else "") + (if starred then "F" else "")
  }

  lemma WrittenIs(name: string, read: bool, starred: bool)
    ensures WrittenFlags(name, read, starred) == Foreign(name) + Managed(read, starred)
  {
    WrittenFlagsMeaning(name, read, starred);
    if !read && !starred { assert Foreign(name) + "" + "" == Foreign(name); }
  }

  lemma SeparatorChars(s: string, i: int)
    ensures OccursAt(s, SEPARATOR, i) <==> 0 <= i <= |s| - 3 && s[i] == ':' && s[i + 1] == '2' && s[i + 2] == ','
  {
    if 0 <= i <= |s| - 3 {
      assert s[i..i + 3] == [s[i], s[i + 1], s[i + 2]];
    }
  }

  /** `LastIndex` is the only place where the separator occurs and after which it does not. */
  lemma LastIndexIs(s: string, i: int)
    requires i == -1 || OccursAt(s, SEPARATOR, i)
    requires forall j :: i < j ==> !OccursAt(s, SEPARATOR, j)
    ensures LastIndex(s, SEPARATOR) == i
  {
    var k := LastIndex(s, SEPARATOR);
    assert k > i ==> !OccursAt(s, SEPARATOR, k);
    assert i > k ==> !OccursAt(s, SEPARATOR, i);
  }

  /** Splitting a joined name gives the parts back exactly when the flags hold no separator. */
  lemma SplitOfJoined(base: string, flags: string)
    ensures LastIndex(base + SEPARATOR + flags, SEPARATOR) ==
            if LastIndex(flags, SEPARATOR) == -1 then |base| else |base| + |SEPARATOR| + LastIndex(flags, SEPARATOR)
  {
    var s, b, last := base + SEPARATOR + flags, |base| + |SEPARATOR|, LastIndex(flags, SEPARATOR);
    SeparatorChars(s, |base|);
    forall i | |base| < i ensures OccursAt(s, SEPARATOR, i) <==> OccursAt(flags, SEPARATOR, i - b) {
      JoinedOccurs(base, flags, i);
    }
    if last == -1 { LastIndexIs(s, |base|); } else { LastIndexIs(s, b + last); }
  }

  lemma JoinedOccurs(base: string, flags: string, i: int)
    requires |base| < i
    ensures OccursAt(base + SEPARATOR + flags, SEPARATOR, i) <==> OccursAt(flags, SEPARATOR, i - |base| - |SEPARATOR|)
  {
    SeparatorChars(base + SEPARATOR + flags, i);
    SeparatorChars(flags, i - |base| - |SEPARATOR|);
  }

  /** The managed flags are not part of a separator. */
  lemma ManagedAddNoSeparator(kept: string, read: bool, starred: bool)
    ensures LastIndex(kept + Managed(read, starred), SEPARATOR) == LastIndex(kept, SEPARATOR)
  {
    var s := kept + Managed(read, starred);
    forall i ensures OccursAt(s, SEPARATOR, i) <==> OccursAt(kept, SEPARATOR, i) {
      SeparatorChars(s, i);
      SeparatorChars(kept, i);
    }
    LastIndexIs(s, LastIndex(kept, SEPARATOR));
  }

  lemma ForeignOf(kept: string, read: bool, starred: bool)
    requires (forall c :: c in kept ==> c !in "SF") && forall i, j :: 0 <= i < j < |kept| ==> kept[i] != kept[j]
    ensures Preserved(kept + Managed(read, starred), "SF") == kept
  {
    PreservedIsStable(kept, "SF");
    PreservedDropsAll(kept, read, starred);
  }

  lemma PreservedDropsAll(flags: string, read: bool, starred: bool)
    ensures Preserved(flags + Managed(read, starred), "SF") == Preserved(flags, "SF")
  {
    var seen := if read then flags + "S" else flags;
    SeenIsDropped(flags, read);
    StarIsDropped(seen, starred);
    assert flags + Managed(read, starred) == if starred then seen + "F" else seen;
  }

  lemma SeenIsDropped(flags: string, read: bool)
    ensures Preserved(if read then flags + "S" else flags, "SF") == Preserved(flags, "SF")
  {
    PreservedDropsManaged(flags, 'S', "SF");
  }

  lemma StarIsDropped(flags: string, starred: bool)
    ensures Preserved(if starred then flags + "F" else flags, "SF") == Preserved(flags, "SF")
  {
    PreservedDropsManaged(flags, 'F', "SF");
  }

  /** For every name whose base holds no separator: writing flags keeps the base exactly when the
      foreign flags, without repetitions, do not spell a separator; and then the foreign flags stay
      and nothing but the managed ones is added. */
  lemma WithFlagsKeepsTheRest(name: string, read: bool, starred: bool)
    requires LastIndex(BaseOf(name), SEPARATOR) == -1
    ensures BaseOf(WithFlags(name, read, starred)) == BaseOf(name) <==> LastIndex(Foreign(name), SEPARATOR) == -1
    ensures LastIndex(Foreign(name), SEPARATOR) == -1 ==>
              FlagsOf(WithFlags(name, read, starred)) == Foreign(name) + Managed(read, starred)
              && Foreign(WithFlags(name, read, starred)) == Foreign(name)
  {
    WrittenIs(name, read, starred);
    ManagedAddNoSeparator(Foreign(name), read, starred);
    ForeignOf(Foreign(name), read, starred);
    PartsOfJoined(BaseOf(name), Foreign(name) + Managed(read, starred));
  }

  /** Foreign flags that do: without the `S` between them the flags `:S2,` are a separator, and a
      flag write makes it part of the base. */
  lemma ForeignFlagsSpellSeparator()
    ensures var name := "a" + SEPARATOR + ":S2,";
            BaseOf(name) == "a" && LastIndex("a", SEPARATOR) == -1 && BaseOf(WithFlags(name, true, false)) != "a"
  {
    var name := "a" + SEPARATOR + ":S2,";
    NoCommaNoSeparator("a");
    forall i ensures !OccursAt(":S2,", SEPARATOR, i) {
      SeparatorChars(":S2,", i);
    }
    PartsOfJoined("a", ":S2,");
    SpelledSeparator();
    SeparatorChars(SEPARATOR, 0);
    WithFlagsKeepsTheRest(name, true, false);
  }

  lemma SpelledSeparator()
    ensures Preserved(":S2,", "SF") == SEPARATOR
  {
    PreservedSkips(":", 'S', "2,", "SF");
    assert ":" + ['S'] + "2," == ":S2," && ":" + "2," == SEPARATOR;
    PreservedIsStable(SEPARATOR, "SF");
  }

  lemma {:induction false} PreservedSkips(before: string, c: char, after: string, managed: string)
    requires c in managed
    ensures Preserved(before + [c] + after, managed) == Preserved(before + after, managed)
    decreases |after|
  {
    if after == "" {
      PreservedDropsManaged(before, c, managed);
      assert before + [c] + after == before + [c] && before + after == before;
    } else {
      var n := |after| - 1;
      PreservedSkips(before, c, after[..n], managed);
      var s, t := before + [c] + after, before + after;
      assert s[..|s| - 1] == before + [c] + after[..n] && t[..|t| - 1] == before + after[..n];
    }
  }

  /** The parts of a name put together from a base without separator and any flags. */
  lemma PartsOfJoined(base: string, flags: string)
    requires LastIndex(base, SEPARATOR) == -1
    ensures var out := if flags != "" then base + SEPARATOR + flags else base;
            && (BaseOf(out) == base <==> LastIndex(flags, SEPARATOR) == -1)
            && (LastIndex(flags, SEPARATOR) == -1 ==> FlagsOf(out) == flags)
  {
    if flags == "" {
      SeparatorChars(flags, LastIndex(flags, SEPARATOR));
    } else {
      var out := base + SEPARATOR + flags;
      SplitOfJoined(base, flags);
      assert out[|base| + |SEPARATOR|..] == flags && out[..|base|] == base;
      assert |BaseOf(out)| == LastIndex(out, SEPARATOR);
    }
  }

  lemma {:induction false} PreservedIsStable(kept: string, managed: string)
    requires forall c :: c in kept ==> c !in managed
    requires forall i, j :: 0 <= i < j < |kept| ==> kept[i] != kept[j]
    ensures Preserved(kept, managed) == kept
  {
    if kept != "" {
      var before := kept[..|kept| - 1];
      PreservedIsStable(before, managed);
      assert kept == before + [kept[|kept| - 1]];
    }
  }

  lemma PreservedDropsManaged(flags: string, c: char, managed: string)
    requires c in managed
    ensures Preserved(flags + [c], managed) == Preserved(flags, managed)
  {
    assert (flags + [c])[..|flags|] == flags;
  }

  /** The foreign flags spell a separator and end with it. */
  predicate EndsInSeparator(name: string) {
    LastIndex(Foreign(name), SEPARATOR) >= 0 && LastIndex(Foreign(name), SEPARATOR) == |Foreign(name)| - |SEPARATOR|
  }

  /** Of two writes in a row the last one wins, and a repeated write is a no-op, for every name whose
      base holds no separator, exactly unless the foreign flags end in a separator and the second
      write sets no flag. */
  lemma LastWriteWins(name: string, r1: bool, s1: bool, r2: bool, s2: bool)
    requires LastIndex(BaseOf(name), SEPARATOR) == -1
    ensures WithFlags(WithFlags(name, r1, s1), r2, s2) == WithFlags(name, r2, s2)
            <==> !(EndsInSeparator(name) && !r2 && !s2)
  {
    WithFlagsKeepsTheRest(name, r1, s1);
    if LastIndex(Foreign(name), SEPARATOR) >= 0 { SplitForeign(name, r1, s1, r2, s2); }
  }

  /** When the foreign flags spell a separator, the first write makes what stands before it part of
      the base, and the second one writes the same characters again, unless nothing follows. */
  lemma SplitForeign(name: string, r1: bool, s1: bool, r2: bool, s2: bool)
    requires LastIndex(Foreign(name), SEPARATOR) >= 0
    ensures WithFlags(WithFlags(name, r1, s1), r2, s2) == WithFlags(name, r2, s2)
            <==> !(EndsInSeparator(name) && !r2 && !s2)
  {
    var base, kept, i := BaseOf(name), Foreign(name), LastIndex(Foreign(name), SEPARATOR);
    var head, tail := kept[..i], kept[i + |SEPARATOR|..];
    var once := WithFlags(name, r1, s1);
    WrittenIs(name, r1, s1);
    WrittenIs(name, r2, s2);
    OnceSplits(base, kept, Managed(r1, s1), i, r1, s1);
    TailDistinct(kept, i + |SEPARATOR|);
    ForeignOf(tail, r1, s1);
    WrittenIs(once, r2, s2);
    TwiceWritten(base, kept, i, head, tail, Managed(r2, s2));
  }

  lemma OnceSplits(base: string, kept: string, managed: string, i: nat, read: bool, starred: bool)
    requires i == LastIndex(kept, SEPARATOR) && managed == Managed(read, starred)
    ensures var once := base + SEPARATOR + (kept + managed);
            BaseOf(once) == base + SEPARATOR + kept[..i] && FlagsOf(once) == kept[i + |SEPARATOR|..] + managed
  {
    var once := base + SEPARATOR + (kept + managed);
    ManagedAddNoSeparator(kept, read, starred);
    SplitOfJoined(base, kept + managed);
    var at := |base| + |SEPARATOR| + i;
    assert once[..at] == base + SEPARATOR + kept[..i];
    assert once[at + |SEPARATOR|..] == kept[i + |SEPARATOR|..] + managed;
  }

  lemma TailDistinct(kept: string, n: nat)
    requires n <= |kept|
    requires (forall c :: c in kept ==> c !in "SF") && forall i, j :: 0 <= i < j < |kept| ==> kept[i] != kept[j]
    ensures (forall c :: c in kept[n..] ==> c !in "SF") && forall i, j :: 0 <= i < j < |kept[n..]| ==>
              kept[n..][i] != kept[n..][j]
  {
  }

  /** The name after the second write, put together from the parts, against the name after it alone. */
  lemma TwiceWritten(base: string, kept: string, i: nat, head: string, tail: string, managed: string)
    requires OccursAt(kept, SEPARATOR, i) && head == kept[..i] && tail == kept[i + |SEPARATOR|..]
    ensures (if tail + managed != "" then base + SEPARATOR + head + SEPARATOR + (tail + managed)
              else base + SEPARATOR + head)
              == base + SEPARATOR + (kept + managed)
            <==> !(tail == "" && managed == "")
  {
    assert kept == head + SEPARATOR + tail;
    if tail + managed != "" {
      assert base + SEPARATOR + head + SEPARATOR + (tail + managed) == base + SEPARATOR + (kept + managed);
    } else {
      assert |base + SEPARATOR + head| < |base + SEPARATOR + (kept + managed)|;
    }
  }

  // ---- File names made by the server ----

  predicate SafeChar(c: char) {
    'a' <= c <= 'z' || 'A' <= c <= 'Z' || '0' <= c <= '9' || c in "._-@"
  }

  predicate AllSafe(s: string) {
    forall c :: c in s ==> SafeChar(c)
  }

  function TrimLeft(s: string, cut: string): (r: string)
    ensures |r| <= |s| && r == s[|s| - |r|..]
    ensures r != "" ==> r[0] !in cut
  {
    if s != "" && s[0] in cut then TrimLeft(s[1..], cut) else s
  }

  function TrimRight(s: string, cut: string): (r: string)
    ensures |r| <= |s| && r == s[..|r|]
    ensures r != "" ==> r[|r| - 1] !in cut
  {
    if s != "" && s[|s| - 1] in cut then TrimRight(s[..|s| - 1], cut) else s
  }

  function Trim(s: string, cut: string): string { TrimRight(TrimLeft(s, cut), cut) }

  /** `core` is `s` without the characters of `cut` at its ends. */
  ghost predicate Trimmed(s: string, cut: string, core: string) {
    exists i: nat :: CoreAt(s, cut, core, i)
  }

  ghost predicate CoreAt(s: string, cut: string, core: string, i: nat) {
    && i + |core| <= |s| && s[i..i + |core|] == core
    && (forall k :: 0 <= k < i || i + |core| <= k < |s| ==> s[k] in cut)
    && (core != "" ==> core[0] !in cut && core[|core| - 1] !in cut)
  }

  lemma {:induction false} TrimLeftCuts(s: string, cut: string)
    ensures forall k :: 0 <= k < |s| - |TrimLeft(s, cut)| ==> s[k] in cut
  {
    if s != "" && s[0] in cut {
      TrimLeftCuts(s[1..], cut);
      assert forall k :: 1 <= k < |s| ==> s[k] == s[1..][k - 1];
    }
  }

  lemma {:induction false} TrimRightCuts(s: string, cut: string)
    ensures forall k :: |TrimRight(s, cut)| <= k < |s| ==> s[k] in cut
  {
    if s != "" && s[|s| - 1] in cut { TrimRightCuts(s[..|s| - 1], cut); }
  }

  /** Trimming gives the trimmed string, and there is no other. */
  lemma TrimmedExactlyWhen(s: string, cut: string, core: string)
    ensures Trimmed(s, cut, core) <==> core == Trim(s, cut)
  {
    TrimIsCore(s, cut);
    if j: nat :| CoreAt(s, cut, core, j) {
      SameCore(s, cut, Trim(s, cut), |s| - |TrimLeft(s, cut)|, core, j);
    }
  }

  lemma TrimIsCore(s: string, cut: string)
    ensures CoreAt(s, cut, Trim(s, cut), |s| - |TrimLeft(s, cut)|)
  {
    var left := TrimLeft(s, cut);
    TrimLeftCuts(s, cut);
    TrimRightCuts(left, cut);
    CutAgain(s, left, TrimRight(left, cut), cut);
  }

  lemma CutAgain(s: string, left: string, t: string, cut: string)
    requires |left| <= |s| && left == s[|s| - |left|..] && |t| <= |left| && t == left[..|t|]
    requires forall k :: 0 <= k < |s| - |left| ==> s[k] in cut
    requires forall k :: |t| <= k < |left| ==> left[k] in cut
    requires (left != "" ==> left[0] !in cut) && (t != "" ==> t[|t| - 1] !in cut)
    ensures CoreAt(s, cut, t, |s| - |left|)
  {
    var i := |s| - |left|;
    forall k | i + |t| <= k < |s| ensures s[k] in cut {
      assert s[k] == left[k - i];
    }
    assert s[i..i + |t|] == t;
  }

  lemma SameCore(s: string, cut: string, a: string, i: nat, b: string, j: nat)
    requires CoreAt(s, cut, a, i) && CoreAt(s, cut, b, j)
    ensures a == b
  {
    if a != "" { assert s[i] == a[0] && s[i + |a| - 1] == a[|a| - 1]; }
    if b != "" { assert s[j] == b[0] && s[j + |b| - 1] == b[|b| - 1]; }
  }

  function Sanitized(s: string): (r: string)
    ensures |r| == |s|
    ensures forall i :: 0 <= i < |s| ==> r[i] == if SafeChar(s[i]) then s[i] else '_'
  {
    seq(|s|, i requires 0 <= i < |s| => if SafeChar(s[i]) then s[i] else '_')
  }

  method Sanitize(s: string) returns (b: string)
    ensures b == Sanitized(s) && AllSafe(b)
  {
    SanitizedIsSafe(s);
    b := "";
    for i := 0 to |s|
      invariant b == Sanitized(s)[..i]
    {
      b := b + [if SafeChar(s[i]) then s[i] else '_'];
    }
  }

  /** `safeMaildirName`. */
  method SafeMaildirName(value: string) returns (out: string)
    ensures 0 < |out| <= 120 && AllSafe(out) && out[0] !in "._-"
    ensures var safe := Trim(Sanitized(Trim(value, "<>")), "._-");
            out == if safe == "" then "message" else safe[..Min(|safe|, 120)]
  {
    var trimmed := Trim(value, "<>");
    var b := Sanitize(trimmed);
    out := Trim(b, "._-");
    CutIsSafe(b);
    if out == "" {
      return "message";
    }
    if |out| > 120 {
      out := out[..120];
    }
  }

  lemma CutIsSafe(b: string)
    requires AllSafe(b)
    ensures AllSafe("message")
    ensures var safe := Trim(b, "._-");
            forall n :: 0 < n <= |safe| ==> AllSafe(safe[..n]) && safe[0] !in "._-"
  {
    DefaultIsSafe();
    TrimIsSlice(b, "._-");
  }

  lemma SanitizedIsSafe(s: string)
    ensures AllSafe(Sanitized(s))
  {
    assert SafeChar('_');
  }

  lemma DefaultIsSafe()
    ensures AllSafe("message")
  {
  }

  lemma TrimIsSlice(s: string, cut: string)
    ensures forall c :: c in Trim(s, cut) ==> c in s
    ensures Trim(s, cut) != "" ==> Trim(s, cut)[0] !in cut
  {
    var t := TrimLeft(s, cut);
    assert forall c :: c in t ==> c in s;
    assert Trim(s, cut) == t[..|Trim(s, cut)|];
  }

  /** Names built from safe characters carry no flag separator, so flags read from them are the
      folder's default until a flag is written. */
  lemma SafeNamesHaveNoFlags(name: string)
    requires AllSafe(name)
    ensures NoSeparator(name) && BaseOf(name) == name && FlagsOf(name) == "" && Foreign(name) == ""
  {
    assert !SafeChar(',');
    NoCommaNoSeparator(name);
  }
}
