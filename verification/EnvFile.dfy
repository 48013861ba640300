/** Reading and writing settings in an `.env` file: the last line of a key holds its value, and
    writing replaces the lines of the given keys in place and appends the keys that have none. */
module EnvFile {
  import opened Common

  // ---- Lines ----

  /** Where the first occurrence of `c` is, or the length if there is none. */
  function Find(s: string, c: char): (i: nat)
    ensures i <= |s| && c !in s[..i] && (i < |s| ==> s[i] == c)
    ensures i == |s| <==> c !in s
  {
    if s == "" then 0
    else if s[0] == c then 0
    else
      var i := Find(s[1..], c) + 1;
      assert s[..i] == [s[0]] + s[1..][..i - 1] && s == [s[0]] + s[1..];
      i
  }

  /** A line terminated by `\r\n` loses the `\r` too. */
  function StripCr(l: string): string {
    if l != "" && l[|l| - 1] == '\r' then l[..|l| - 1] else l
  }

  /** The lines of a text; the last one need not be terminated. */
  function Lines(s: string): seq<string>
    decreases |s|
  {
    if s == "" then []
    else
      var i := Find(s, '\n');
      if i == |s| then [s] else [StripCr(s[..i])] + Lines(s[i + 1..])
  }

  function Unlines(ls: seq<string>): string {
    if ls == [] then "" else ls[0] + "\n" + Unlines(ls[1..])
  }

  ghost predicate OneLineEach(ls: seq<string>) {
    forall l :: l in ls ==> '\n' !in l
  }

  /** No line ends in a carriage return of its own, as in texts without `\r` and in texts that only
      use it in `\r\n`. */
  ghost predicate Clean(ls: seq<string>) {
    forall l :: l in ls ==> StripCr(l) == l
  }

  lemma {:induction false} FindIs(s: string, c: char, n: nat)
    requires n < |s| && s[n] == c && c !in s[..n]
    ensures Find(s, c) == n
  {
    if n > 0 {
      assert s[0] in s[..n];
      assert s[1..][..n - 1] == s[..n][1..];
      FindIs(s[1..], c, n - 1);
    }
  }

  lemma FindLine(l: string, rest: string)
    requires '\n' !in l
    ensures Find(l + "\n" + rest, '\n') == |l|
  {
    assert (l + "\n" + rest)[..|l|] == l;
    FindIs(l + "\n" + rest, '\n', |l|);
  }

  function StripAll(ls: seq<string>): (out: seq<string>)
    ensures |out| == |ls| && forall k :: 0 <= k < |ls| ==> out[k] == StripCr(ls[k])
  {
    if ls == [] then [] else [StripCr(ls[0])] + StripAll(ls[1..])
  }

  lemma {:induction false} LinesOfUnlines(ls: seq<string>)
    requires OneLineEach(ls)
    ensures Lines(Unlines(ls)) == StripAll(ls)
  {
    if ls != [] {
      var s := ls[0] + "\n" + Unlines(ls[1..]);
      FindLine(ls[0], Unlines(ls[1..]));
      assert s[..|ls[0]|] == ls[0] && s[|ls[0]| + 1..] == Unlines(ls[1..]);
      LinesOfUnlines(ls[1..]);
    }
  }

  lemma {:induction false} StripAllSame(ls: seq<string>)
    ensures StripAll(ls) == ls <==> Clean(ls)
  {
    if ls != [] {
      StripAllSame(ls[1..]);
      assert ls == [ls[0]] + ls[1..];
    }
  }

  lemma {:induction false} LinesAreLines(s: string)
    ensures OneLineEach(Lines(s))
    decreases |s|
  {
    var i := Find(s, '\n');
    if i < |s| { LinesAreLines(s[i + 1..]); }
  }

  /** A text without carriage returns has clean lines. */
  lemma {:induction false} CrFreeIsClean(s: string)
    requires '\r' !in s
    ensures Clean(Lines(s))
    decreases |s|
  {
    if s != "" {
      var i := Find(s, '\n');
      PartIsCrFree(s, 0, i);
      if i < |s| {
        PartIsCrFree(s, i + 1, |s|);
        CrFreeIsClean(s[i + 1..]);
      }
    }
  }

  lemma PartIsCrFree(s: string, a: nat, b: nat)
    requires '\r' !in s && a <= b <= |s|
    ensures '\r' !in s[a..b] && StripCr(s[a..b]) == s[a..b]
  {
    assert forall i :: a <= i < b ==> s[a..b][i - a] == s[i];
  }

  // ---- Entries ----

  datatype Entry = Entry(key: string, value: string)

  /** `split_once('=')` */
  function Split(line: string): Option<Entry> {
    var i := Find(line, '=');
    if i == |line| then None else Some(Entry(line[..i], line[i + 1..]))
  }

  function Render1(e: Entry): string { e.key + "=" + e.value }

  predicate KeyChar(c: char) { 'A' <= c <= 'Z' || '0' <= c <= '9' || c == '_' }

  predicate ValidKey(k: string) { k != "" && forall c :: c in k ==> KeyChar(c) }

  predicate ValidValue(v: string) { '\n' !in v && '\r' !in v && '\0' !in v }

  lemma SplitRendered(e: Entry)
    requires ValidKey(e.key)
    ensures Split(Render1(e)) == Some(e)
  {
    var s := Render1(e);
    assert s[..|e.key|] == e.key && s[|e.key|] == '=';
    FindIs(s, '=', |e.key|);
    assert s[|e.key| + 1..] == e.value;
  }

  predicate IsKey(line: string, key: string) { Split(line).Some? && Split(line).value.key == key }

  /** The value of the last line of `key`. */
  function Last(ls: seq<string>, key: string): Option<string> {
    if ls == [] then None
    else
      var l := ls[|ls| - 1];
      if IsKey(l, key) then Some(Split(l).value.value) else Last(ls[..|ls| - 1], key)
  }

  function Value(contents: string, key: string): Option<string> { Last(Lines(contents), key) }

  /** The first of the entries written for the key of this line. */
  function Position(line: string, es: seq<Entry>): (i: nat)
    ensures i <= |es| && (i < |es| ==> IsKey(line, es[i].key)) && forall j :: 0 <= j < i ==> !IsKey(line, es[j].key)
  {
    if es == [] then 0 else if IsKey(line, es[0].key) then 0 else Position(line, es[1..]) + 1
  }

  function Rewritten(line: string, es: seq<Entry>): string {
    var i := Position(line, es);
    if i < |es| then Render1(es[i]) else line
  }

  function RewriteAll(ls: seq<string>, es: seq<Entry>): (out: seq<string>)
    ensures |out| == |ls| && forall i :: 0 <= i < |ls| ==> out[i] == Rewritten(ls[i], es)
  {
    seq(|ls|, i requires 0 <= i < |ls| => Rewritten(ls[i], es))
  }

  /** Some line was rewritten to entry `i`. */
  predicate Found(ls: seq<string>, es: seq<Entry>, i: nat) {
    exists k :: 0 <= k < |ls| && Position(ls[k], es) == i
  }

  /** Which entries have replaced a line. */
  function FoundFlags(ls: seq<string>, es: seq<Entry>): (f: seq<bool>)
    ensures |f| == |es|
  {
    seq(|es|, i requires 0 <= i < |es| => Found(ls, es, i))
  }

  /** The entries among the first `n` that no line was rewritten to, in order. */
  function Missing(found: seq<bool>, es: seq<Entry>, n: nat): seq<string>
    requires n <= |es| == |found|
  {
    if n == 0 then []
    else Missing(found, es, n - 1) + if found[n - 1] then [] else [Render1(es[n - 1])]
  }

  function NewLines(ls: seq<string>, es: seq<Entry>): seq<string> {
    RewriteAll(ls, es) + Missing(FoundFlags(ls, es), es, |es|)
  }

  datatype Error = BadKey | BadValue
  datatype Result = Ok(text: string) | Err(error: Error)

  function Validate(es: seq<Entry>): Option<Error> {
    if es == [] then None
    else if !ValidKey(es[0].key) then Some(BadKey)
    else if !ValidValue(es[0].value) then Some(BadValue)
    else Validate(es[1..])
  }

  predicate Valid(es: seq<Entry>) { forall e :: e in es ==> ValidKey(e.key) && ValidValue(e.value) }

  lemma {:induction false} ValidatedIsValid(es: seq<Entry>)
    ensures Validate(es).None? <==> Valid(es)
  {
    if es != [] {
      ValidatedIsValid(es[1..]);
      assert es == [es[0]] + es[1..];
    }
  }

  function Render(contents: string, es: seq<Entry>): Result {
    match Validate(es)
    case Some(e) => Err(e)
    case None => Ok(Unlines(NewLines(Lines(contents), es)))
  }

  /** The text written when the entries are valid. */
  function Written(contents: string, es: seq<Entry>): string {
    Unlines(NewLines(Lines(contents), es))
  }

  /** Entry `i` is the first that is not valid. */
  ghost predicate FirstInvalid(es: seq<Entry>, i: nat) {
    i < |es| && !Valid([es[i]]) && Valid(es[..i])
  }

  lemma {:induction false} ErrorIsFirst(es: seq<Entry>, i: nat)
    requires FirstInvalid(es, i)
    ensures Validate(es) == Some(if ValidKey(es[i].key) then BadValue else BadKey)
  {
    assert es[i] == [es[i]][0];
    if i > 0 {
      assert es[0] in es[..i];
      assert es[1..][..i - 1] == es[..i][1..];
      ErrorIsFirst(es[1..], i - 1);
    }
  }

  /** Nothing is written unless every entry is valid; the error is that of the first one that is not,
      of its key before its value. */
  lemma WritesExactlyWhenValid(contents: string, es: seq<Entry>)
    ensures Valid(es) ==> Render(contents, es) == Ok(Written(contents, es))
    ensures !Valid(es) ==> exists i :: FirstInvalid(es, i)
    ensures forall i: nat :: FirstInvalid(es, i) ==>
              Render(contents, es) == Err(if ValidKey(es[i].key) then BadValue else BadKey)
  {
    ValidatedIsValid(es);
    forall i: nat | FirstInvalid(es, i)
      ensures Validate(es) == Some(if ValidKey(es[i].key) then BadValue else BadKey)
    {
      ErrorIsFirst(es, i);
    }
    if !Valid(es) { var i := SomeFirst(es); }
  }

  lemma {:induction false} SomeFirst(es: seq<Entry>) returns (i: nat)
    requires !Valid(es)
    ensures FirstInvalid(es, i)
  {
    var n := |es| - 1;
    assert es == es[..n] + [es[n]];
    if Valid(es[..n]) {
      i := n;
    } else {
      i := SomeFirst(es[..n]);
      assert es[..n][..i] == es[..i];
    }
  }

  // ---- The writer's loops ----

  lemma {:induction false} UnlinesAppend(ls: seq<string>, l: string)
    ensures Unlines(ls + [l]) == Unlines(ls) + l + "\n"
  {
    if ls == [] {
      assert [l][1..] == [];
    } else {
      UnlinesAppend(ls[1..], l);
      assert (ls + [l])[1..] == ls[1..] + [l];
    }
  }

  lemma FlagsAppend(ls: seq<string>, es: seq<Entry>, n: nat)
    requires n < |ls|
    ensures var p := Position(ls[n], es);
            FoundFlags(ls[..n + 1], es) ==
            if p < |es| then FoundFlags(ls[..n], es)[p := true] else FoundFlags(ls[..n], es)
  {
    var before, after := FoundFlags(ls[..n], es), FoundFlags(ls[..n + 1], es);
    var p := Position(ls[n], es);
    var expected := if p < |es| then before[p := true] else before;
    forall i | 0 <= i < |es| ensures after[i] == expected[i] {
      OneFlag(ls[..n], es, i);
      OneFlag(ls[..n + 1], es, i);
      FoundAppend(ls, es, n, i);
    }
  }

  lemma OneFlag(ls: seq<string>, es: seq<Entry>, i: nat)
    requires i < |es|
    ensures FoundFlags(ls, es)[i] == Found(ls, es, i)
  {
  }

  lemma FoundAppend(ls: seq<string>, es: seq<Entry>, n: nat, i: nat)
    requires n < |ls|
    ensures Found(ls[..n + 1], es, i) <==> Found(ls[..n], es, i) || Position(ls[n], es) == i
  {
    var front, more := ls[..n], ls[..n + 1];
    if Found(front, es, i) {
      var k :| 0 <= k < n && Position(front[k], es) == i;
      assert more[k] == front[k];
    }
    if Found(more, es, i) {
      var k :| 0 <= k <= n && Position(more[k], es) == i;
      assert k < n ==> front[k] == more[k];
    }
    assert more[n] == ls[n];
  }

  lemma OutputAppend(ls: seq<string>, es: seq<Entry>, n: nat)
    requires n < |ls|
    ensures Unlines(RewriteAll(ls[..n + 1], es)) == Unlines(RewriteAll(ls[..n], es)) + Rewritten(ls[n], es) + "\n"
  {
    assert RewriteAll(ls[..n + 1], es) == RewriteAll(ls[..n], es) + [Rewritten(ls[n], es)];
    UnlinesAppend(RewriteAll(ls[..n], es), Rewritten(ls[n], es));
  }

  lemma OutputMissing(all: seq<string>, found: seq<bool>, es: seq<Entry>, i: nat)
    requires i < |es| == |found|
    ensures Unlines(all + Missing(found, es, i + 1)) == Unlines(all + Missing(found, es, i)) +
              if found[i] then "" else Render1(es[i]) + "\n"
  {
    if found[i] {
      assert Missing(found, es, i + 1) == Missing(found, es, i);
    } else {
      UnlinesAppend(all + Missing(found, es, i), Render1(es[i]));
      assert all + Missing(found, es, i + 1) == all + Missing(found, es, i) + [Render1(es[i])];
    }
  }

  /** The first loop of `render`: every line, or what replaces it. */
  method RenderLines(lines: seq<string>, values: seq<Entry>) returns (output: string, foundKeys: seq<bool>)
    ensures output == Unlines(RewriteAll(lines, values)) && foundKeys == FoundFlags(lines, values)
  {
    output := "";
    foundKeys := seq(|values|, i => false);
    for n := 0 to |lines|
      invariant output == Unlines(RewriteAll(lines[..n], values))
      invariant foundKeys == FoundFlags(lines[..n], values)
    {
      var index := Position(lines[n], values);
      OutputAppend(lines, values, n);
      FlagsAppend(lines, values, n);
      if index < |values| {
        output := output + Render1(values[index]) + "\n";
        foundKeys := foundKeys[index := true];
      } else {
        output := output + lines[n] + "\n";
      }
    }
    assert lines[..|lines|] == lines;
  }

  /** `render` */
  method RenderText(contents: string, values: seq<Entry>) returns (r: Result)
    ensures r == Render(contents, values)
  {
    var error := Validate(values);
    if error.Some? { return Err(error.value); }
    var lines := Lines(contents);
    var output, foundKeys := RenderLines(lines, values);
    ghost var all := RewriteAll(lines, values);
    assert all + [] == all;
    for i := 0 to |values|
      invariant output == Unlines(all + Missing(foundKeys, values, i))
    {
      OutputMissing(all, foundKeys, values, i);
      if !foundKeys[i] {
        output := output + (Render1(values[i]) + "\n");
      }
    }
    return Ok(output);
  }

  // ---- Reading back ----

  lemma {:induction false} MissingIsEntry(found: seq<bool>, es: seq<Entry>, n: nat, l: string)
    requires n <= |es| == |found| && l in Missing(found, es, n)
    ensures exists i :: 0 <= i < n && l == Render1(es[i])
  {
    if n > 0 && l in Missing(found, es, n - 1) { MissingIsEntry(found, es, n - 1, l); }
  }

  lemma {:induction false} EntryIsMissing(found: seq<bool>, es: seq<Entry>, n: nat, i: nat)
    requires i < n <= |es| == |found| && !found[i]
    ensures Render1(es[i]) in Missing(found, es, n)
  {
    if i < n - 1 { EntryIsMissing(found, es, n - 1, i); }
  }

  lemma RenderedIsClean(e: Entry)
    requires ValidKey(e.key) && ValidValue(e.value)
    ensures '\n' !in Render1(e) && StripCr(Render1(e)) == Render1(e)
  {
    assert Render1(e)[|Render1(e)| - 1] == if e.value == "" then '=' else e.value[|e.value| - 1];
  }

  lemma NewLinesClean(ls: seq<string>, es: seq<Entry>)
    requires Valid(es) && OneLineEach(ls)
    ensures OneLineEach(NewLines(ls, es))
    ensures Clean(ls) ==> Clean(NewLines(ls, es))
  {
    forall l | l in NewLines(ls, es) ensures '\n' !in l && (Clean(ls) ==> StripCr(l) == l) {
      if l in Missing(FoundFlags(ls, es), es, |es|) { MissingIsEntry(FoundFlags(ls, es), es, |es|, l); }
      if i :| 0 <= i < |es| && l == Render1(es[i]) {
        RenderedIsClean(es[i]);
      } else {
        assert l in RewriteAll(ls, es);
        var k :| 0 <= k < |ls| && Rewritten(ls[k], es) == l;
        assert l == ls[k];
      }
    }
  }

  /** Reading the written text back finds the rewritten lines and the appended ones, each without
      the carriage return it may end in. */
  lemma RenderedLines(contents: string, es: seq<Entry>)
    requires Valid(es)
    ensures Lines(Written(contents, es)) == StripAll(NewLines(Lines(contents), es))
  {
    LinesAreLines(contents);
    NewLinesClean(Lines(contents), es);
    LinesOfUnlines(NewLines(Lines(contents), es));
  }

  lemma KeptLine(line: string, es: seq<Entry>)
    requires forall e :: e in es ==> !IsKey(line, e.key)
    ensures Rewritten(line, es) == line
  {
    assert forall i :: 0 <= i < |es| ==> es[i] in es;
  }

  /** Nothing is lost or moved: every line of another key, and every line that is no entry, is at
      its place, the same exactly when it does not end in a carriage return and otherwise without
      it; and all lines after the old ones are entries that were written. */
  lemma OtherLinesStay(contents: string, es: seq<Entry>)
    requires Valid(es)
    ensures |Lines(contents)| <= |Lines(Written(contents, es))|
    ensures var ls, out := Lines(contents), Lines(Written(contents, es));
            forall k :: 0 <= k < |ls| && (forall e :: e in es ==> !IsKey(ls[k], e.key)) ==>
              out[k] == StripCr(ls[k]) && (out[k] == ls[k] <==> StripCr(ls[k]) == ls[k])
    ensures var ls, out := Lines(contents), Lines(Written(contents, es));
            forall k :: |ls| <= k < |out| ==> exists e :: e in es && out[k] == Render1(e)
  {
    RenderedLines(contents, es);
    var ls, kept := Lines(contents), NewLines(Lines(contents), es);
    forall k | 0 <= k < |ls| && (forall e :: e in es ==> !IsKey(ls[k], e.key)) ensures kept[k] == ls[k] {
      KeptLine(ls[k], es);
    }
    forall k | |ls| <= k < |kept| ensures exists e :: e in es && kept[k] == Render1(e) && StripCr(kept[k]) == kept[k] {
      MissingIsEntry(FoundFlags(ls, es), es, |es|, kept[k]);
      var i :| 0 <= i < |es| && kept[k] == Render1(es[i]);
      assert es[i] in es;
      RenderedIsClean(es[i]);
    }
  }

  // ---- What a carriage return at the end of a line does ----

  function Stripped(v: Option<string>): Option<string> {
    match v
    case None => None
    case Some(x) => Some(StripCr(x))
  }

  /** It belongs to the value of the line's entry, never to the key. */
  lemma StripKeepsKey(l: string, key: string)
    ensures IsKey(StripCr(l), key) <==> IsKey(l, key)
    ensures IsKey(l, key) ==> Split(StripCr(l)).value.value == StripCr(Split(l).value.value)
  {
    var s := StripCr(l);
    if s != l {
      assert l == s + "\r";
      FindBefore(s, '\r', '=');
      var i := Find(s, '=');
      if i < |s| {
        assert l[..i] == s[..i];
        assert l[i + 1..] == s[i + 1..] + "\r";
      }
    }
  }

  lemma FindBefore(s: string, last: char, c: char)
    requires last != c
    ensures Find(s + [last], c) == if c in s then Find(s, c) else |s| + 1
  {
    var i := Find(s, c);
    if i < |s| {
      assert (s + [last])[..i] == s[..i];
      FindIs(s + [last], c, i);
    }
  }

  lemma {:induction false} StripKeepsPosition(l: string, es: seq<Entry>)
    ensures Position(StripCr(l), es) == Position(l, es)
  {
    if es != [] {
      StripKeepsKey(l, es[0].key);
      StripKeepsPosition(l, es[1..]);
    }
  }

  lemma {:induction false} LastStripped(ls: seq<string>, key: string)
    ensures Last(StripAll(ls), key) == Stripped(Last(ls, key))
  {
    if ls != [] {
      var n := |ls| - 1;
      assert StripAll(ls)[..n] == StripAll(ls[..n]);
      LastStripped(ls[..n], key);
      StripKeepsKey(ls[n], key);
    }
  }

  lemma ValueAfter(contents: string, es: seq<Entry>, key: string)
    requires Valid(es)
    ensures Value(Written(contents, es), key) == Stripped(Last(NewLines(Lines(contents), es), key))
  {
    RenderedLines(contents, es);
    LastStripped(NewLines(Lines(contents), es), key);
  }

  lemma {:induction false} LastOfBoth(a: seq<string>, b: seq<string>, key: string)
    ensures Last(a + b, key) == if Last(b, key).Some? then Last(b, key) else Last(a, key)
  {
    if b == [] {
      assert a + b == a;
    } else {
      assert (a + b)[..|a + b| - 1] == a + b[..|b| - 1];
      LastOfBoth(a, b[..|b| - 1], key);
    }
  }

  lemma {:induction false} RewrittenKeeps(ls: seq<string>, es: seq<Entry>, key: string)
    requires Valid(es) && forall e :: e in es ==> e.key != key
    ensures Last(RewriteAll(ls, es), key) == Last(ls, key)
  {
    if ls != [] {
      var n := |ls| - 1;
      RewrittenKeeps(ls[..n], es, key);
      assert RewriteAll(ls, es)[..n] == RewriteAll(ls[..n], es);
      var i := Position(ls[n], es);
      if i < |es| {
        assert es[i] in es;
        SplitRendered(es[i]);
      }
    }
  }

  lemma LastRendered(e: Entry, key: string)
    requires ValidKey(e.key)
    ensures Last([Render1(e)], key) == if e.key == key then Some(e.value) else None
  {
    SplitRendered(e);
    assert [Render1(e)][..0] == [];
  }

  lemma OneMissingMore(found: seq<bool>, es: seq<Entry>, n: nat, key: string)
    requires Valid(es) && 0 < n <= |es| == |found|
    ensures Last(Missing(found, es, n), key) ==
            if !found[n - 1] && es[n - 1].key == key then Some(es[n - 1].value)
            else Last(Missing(found, es, n - 1), key)
  {
    assert es[n - 1] in es;
    if found[n - 1] {
      assert Missing(found, es, n) == Missing(found, es, n - 1);
    } else {
      LastRendered(es[n - 1], key);
      LastOfBoth(Missing(found, es, n - 1), [Render1(es[n - 1])], key);
    }
  }

  /** The value the appended lines give a key. */
  function MissingValue(found: seq<bool>, es: seq<Entry>, n: nat, key: string): Option<string>
    requires n <= |es| == |found|
  {
    if n == 0 then None
    else if !found[n - 1] && es[n - 1].key == key then Some(es[n - 1].value)
    else MissingValue(found, es, n - 1, key)
  }

  lemma {:induction false} LastOfMissing(found: seq<bool>, es: seq<Entry>, n: nat, key: string)
    requires Valid(es) && n <= |es| == |found|
    ensures Last(Missing(found, es, n), key) == MissingValue(found, es, n, key)
  {
    if n > 0 {
      LastOfMissing(found, es, n - 1, key);
      OneMissingMore(found, es, n, key);
    }
  }

  lemma {:induction false} MissingLast(found: seq<bool>, es: seq<Entry>, n: nat, i: nat)
    requires i < n <= |es| == |found| && !found[i] && forall j :: i < j < n ==> es[j].key != es[i].key
    ensures MissingValue(found, es, n, es[i].key) == Some(es[i].value)
  {
    if n - 1 > i { MissingLast(found, es, n - 1, i); }
  }

  lemma {:induction false} MissingNone(found: seq<bool>, es: seq<Entry>, n: nat, key: string)
    requires n <= |es| == |found| && forall j :: 0 <= j < n && es[j].key == key ==> found[j]
    ensures MissingValue(found, es, n, key) == None
  {
    if n > 0 { MissingNone(found, es, n - 1, key); }
  }

  /** Every other key reads as before exactly when its value does not end in a carriage return,
      which it otherwise loses. */
  lemma OtherKeysKept(contents: string, es: seq<Entry>, key: string)
    requires Valid(es) && forall e :: e in es ==> e.key != key
    ensures Value(Written(contents, es), key) == Stripped(Value(contents, key))
    ensures Value(Written(contents, es), key) == Value(contents, key)
            <==> (Value(contents, key).Some? ==> StripCr(Value(contents, key).value) == Value(contents, key).value)
  {
    ValueAfter(contents, es, key);
    var ls := Lines(contents);
    assert forall j :: 0 <= j < |es| ==> es[j] in es;
    RewrittenKeeps(ls, es, key);
    var found := FoundFlags(ls, es);
    MissingNone(found, es, |es|, key);
    LastOfMissing(found, es, |es|, key);
    LastOfBoth(RewriteAll(ls, es), Missing(found, es, |es|), key);
  }

  lemma FoundIsFirst(ls: seq<string>, es: seq<Entry>, i: nat)
    requires i < |es| && Found(ls, es, i)
    ensures forall j :: 0 <= j < i ==> es[j].key != es[i].key
  {
    var k :| 0 <= k < |ls| && Position(ls[k], es) == i;
  }

  lemma PositionIs(line: string, es: seq<Entry>, i: nat)
    requires i < |es| && forall j :: 0 <= j < i ==> es[j].key != es[i].key
    ensures Position(line, es) < |es| && es[Position(line, es)].key == es[i].key ==> Position(line, es) == i
  {
    if IsKey(line, es[i].key) { PositionAtMost(line, es, i); }
  }

  lemma {:induction false} RewrittenReads(ls: seq<string>, es: seq<Entry>, i: nat)
    requires Valid(es) && i < |es| && Found(ls, es, i)
    ensures Last(RewriteAll(ls, es), es[i].key) == Some(es[i].value)
  {
    var n := |ls| - 1;
    var front, line := RewriteAll(ls[..n], es), Rewritten(ls[n], es);
    assert RewriteAll(ls, es) == front + [line];
    assert ls[..n + 1] == ls;
    LastOfBoth(front, [line], es[i].key);
    RewrittenLine(ls[n], es, i);
    FoundIsFirst(ls, es, i);
    PositionIs(ls[n], es, i);
    FoundAppend(ls, es, n, i);
    if Position(ls[n], es) != i { RewrittenReads(ls[..n], es, i); }
  }

  /** What one rewritten line contributes to the value of entry `i`'s key. */
  lemma RewrittenLine(line: string, es: seq<Entry>, i: nat)
    requires Valid(es) && i < |es|
    ensures var p := Position(line, es);
            Last([Rewritten(line, es)], es[i].key) ==
            if p < |es| && es[p].key == es[i].key then Some(es[p].value) else None
  {
    var p := Position(line, es);
    if p < |es| {
      assert es[p] in es;
      LastRendered(es[p], es[i].key);
    } else {
      assert [line][..0] == [] && !IsKey(line, es[i].key);
    }
  }

  lemma PositionAtMost(line: string, es: seq<Entry>, i: nat)
    requires i < |es| && IsKey(line, es[i].key)
    ensures Position(line, es) <= i && es[Position(line, es)].key == es[i].key
  {
  }

  /** The value written for a key, the last one if several are given, is the value read back. */
  lemma WrittenReadsBack(contents: string, es: seq<Entry>, i: nat)
    requires Valid(es) && i < |es| && forall j :: i < j < |es| ==> es[j].key != es[i].key
    ensures Value(Written(contents, es), es[i].key) == Some(es[i].value)
  {
    LastWritten(Lines(contents), es, i);
    ValueAfter(contents, es, es[i].key);
    assert es[i] in es;
    PartIsCrFree(es[i].value, 0, |es[i].value|);
    assert es[i].value[0..] == es[i].value;
  }

  lemma LastWritten(ls: seq<string>, es: seq<Entry>, i: nat)
    requires Valid(es) && i < |es| && forall j :: i < j < |es| ==> es[j].key != es[i].key
    ensures Last(NewLines(ls, es), es[i].key) == Some(es[i].value)
  {
    var found := FoundFlags(ls, es);
    LastOfBoth(RewriteAll(ls, es), Missing(found, es, |es|), es[i].key);
    LastOfMissing(found, es, |es|, es[i].key);
    OneFlag(ls, es, i);
    if found[i] {
      FoundIsFirst(ls, es, i);
      RewrittenReads(ls, es, i);
      MissingNone(found, es, |es|, es[i].key);
    } else {
      MissingLast(found, es, |es|, i);
    }
  }

  // ---- Writing twice ----

  predicate DistinctKeys(es: seq<Entry>) {
    forall i, j :: 0 <= i < j < |es| ==> es[i].key != es[j].key
  }

  lemma EntryPosition(es: seq<Entry>, i: nat)
    requires Valid(es) && i < |es| && forall j :: 0 <= j < i ==> es[j].key != es[i].key
    ensures Position(Render1(es[i]), es) == i
  {
    assert es[i] in es;
    SplitRendered(es[i]);
    PositionAtMost(Render1(es[i]), es, i);
  }

  /** Lines that were written are left alone by a second write. */
  lemma SecondRewrite(ls: seq<string>, es: seq<Entry>)
    requires Valid(es) && DistinctKeys(es)
    ensures RewriteAll(NewLines(ls, es), es) == NewLines(ls, es)
  {
    var out := NewLines(ls, es);
    forall k | 0 <= k < |out| ensures Rewritten(out[k], es) == out[k] {
      if k >= |ls| { MissingIsEntry(FoundFlags(ls, es), es, |es|, out[k]); }
      if i :| 0 <= i < |es| && out[k] == Render1(es[i]) { EntryPosition(es, i); }
    }
  }

  lemma AllFoundAfter(ls: seq<string>, es: seq<Entry>, i: nat)
    requires Valid(es) && DistinctKeys(es) && i < |es|
    ensures Found(NewLines(ls, es), es, i)
  {
    var out := NewLines(ls, es);
    EntryPosition(es, i);
    if Found(ls, es, i) {
      var k :| 0 <= k < |ls| && Position(ls[k], es) == i;
      assert out[k] == Render1(es[i]);
    } else {
      OneFlag(ls, es, i);
      EntryIsMissing(FoundFlags(ls, es), es, |es|, i);
      assert Render1(es[i]) in out;
      var k :| 0 <= k < |out| && out[k] == Render1(es[i]);
    }
  }

  lemma {:induction false} NothingMissing(found: seq<bool>, es: seq<Entry>, n: nat)
    requires n <= |es| == |found| && forall i :: 0 <= i < n ==> found[i]
    ensures Missing(found, es, n) == []
  {
    if n > 0 { NothingMissing(found, es, n - 1); }
  }

  /** A repeated key is appended again by every write. */
  lemma RepeatedIsMissing(ls: seq<string>, es: seq<Entry>, i: nat, j: nat)
    requires i < j < |es| && es[i].key == es[j].key
    ensures Missing(FoundFlags(ls, es), es, |es|) != []
  {
    forall k | 0 <= k < |ls| ensures Position(ls[k], es) != j {
      if IsKey(ls[k], es[i].key) { PositionAtMost(ls[k], es, i); }
    }
    OneFlag(ls, es, j);
    EntryIsMissing(FoundFlags(ls, es), es, |es|, j);
  }

  /** Every line that stays ends without a carriage return of its own. */
  predicate KeptClean(ls: seq<string>, es: seq<Entry>) {
    forall k :: 0 <= k < |ls| && Position(ls[k], es) == |es| ==> StripCr(ls[k]) == ls[k]
  }

  /** Writing the same entries twice is writing them once exactly when no key is given twice and no
      line that stays ends in a carriage return. */
  lemma IdempotentExactlyWhen(contents: string, es: seq<Entry>)
    requires Valid(es)
    ensures Written(Written(contents, es), es) == Written(contents, es)
            <==> DistinctKeys(es) && KeptClean(Lines(contents), es)
  {
    var ls := Lines(contents);
    var kept := NewLines(ls, es);
    LinesAreLines(contents);
    NewLinesClean(ls, es);
    RenderedLines(contents, es);
    if KeptClean(ls, es) {
      KeptCleanIsClean(ls, es);
      NewLinesTwice(ls, es);
    }
    if Written(Written(contents, es), es) == Written(contents, es) {
      LinesAreLines(Written(contents, es));
      NewLinesClean(StripAll(kept), es);
      UnlinesInjective(NewLines(StripAll(kept), es), kept);
      SameLinesMean(ls, es);
    }
    if DistinctKeys(es) && KeptClean(ls, es) {
      assert NewLines(StripAll(kept), es) == kept;
    }
  }

  lemma KeptCleanIsClean(ls: seq<string>, es: seq<Entry>)
    requires Valid(es) && KeptClean(ls, es)
    ensures StripAll(NewLines(ls, es)) == NewLines(ls, es)
  {
    var kept := NewLines(ls, es);
    forall k | 0 <= k < |kept| ensures StripCr(kept[k]) == kept[k] {
      if k >= |ls| { MissingIsEntry(FoundFlags(ls, es), es, |es|, kept[k]); }
      if i :| 0 <= i < |es| && kept[k] == Render1(es[i]) {
        assert es[i] in es;
        RenderedIsClean(es[i]);
      }
    }
  }

  /** If a second write leaves the lines as the first one wrote them, then no key is repeated and
      the lines that stayed were clean. */
  lemma SameLinesMean(ls: seq<string>, es: seq<Entry>)
    requires NewLines(StripAll(NewLines(ls, es)), es) == NewLines(ls, es)
    ensures DistinctKeys(es) && KeptClean(ls, es)
  {
    var kept := NewLines(ls, es);
    var out := StripAll(kept);
    assert |NewLines(out, es)| == |out|;
    forall i, j | 0 <= i < j < |es| ensures es[i].key != es[j].key {
      if es[i].key == es[j].key { RepeatedIsMissing(out, es, i, j); }
    }
    forall k | 0 <= k < |ls| && Position(ls[k], es) == |es| ensures StripCr(ls[k]) == ls[k] {
      StripKeepsPosition(ls[k], es);
      assert kept[k] == ls[k] && out[k] == StripCr(ls[k]) && NewLines(out, es)[k] == Rewritten(out[k], es);
    }
  }

  lemma {:induction false} UnlinesInjective(a: seq<string>, b: seq<string>)
    requires OneLineEach(a) && OneLineEach(b) && Unlines(a) == Unlines(b)
    ensures a == b
  {
    if a != [] && b != [] {
      FindLine(a[0], Unlines(a[1..]));
      FindLine(b[0], Unlines(b[1..]));
      var s := Unlines(a);
      assert s[..|a[0]|] == a[0] && s[|a[0]| + 1..] == Unlines(a[1..]);
      assert s[..|b[0]|] == b[0] && s[|b[0]| + 1..] == Unlines(b[1..]);
      UnlinesInjective(a[1..], b[1..]);
      assert a == [a[0]] + a[1..] && b == [b[0]] + b[1..];
    }
  }

  /** For a file without carriage returns: every other key reads as before, and writing twice is
      writing once exactly when no key is given twice. */
  lemma CrFreeLaws(contents: string, es: seq<Entry>, key: string)
    requires '\r' !in contents && Valid(es) && forall e :: e in es ==> e.key != key
    ensures Value(Written(contents, es), key) == Value(contents, key)
    ensures Written(Written(contents, es), es) == Written(contents, es) <==> DistinctKeys(es)
  {
    CrFreeIsClean(contents);
    StripAllSame(Lines(contents));
    LastStripped(Lines(contents), key);
    OtherKeysKept(contents, es, key);
    assert KeptClean(Lines(contents), es);
    IdempotentExactlyWhen(contents, es);
  }

  lemma NewLinesTwice(ls: seq<string>, es: seq<Entry>)
    requires Valid(es)
    ensures NewLines(NewLines(ls, es), es) == NewLines(ls, es) <==> DistinctKeys(es)
  {
    var out := NewLines(ls, es);
    if DistinctKeys(es) {
      SecondRewrite(ls, es);
      forall i | 0 <= i < |es| ensures FoundFlags(out, es)[i] {
        AllFoundAfter(ls, es, i);
        OneFlag(out, es, i);
      }
      NothingMissing(FoundFlags(out, es), es, |es|);
    } else {
      var i, j :| 0 <= i < j < |es| && es[i].key == es[j].key;
      RepeatedIsMissing(out, es, i, j);
      assert |NewLines(out, es)| > |out|;
    }
  }

  /** A line that ends in two carriage returns loses one with every write. */
  lemma CarriageReturnsWearOff(l: string)
    requires '\n' !in l
    ensures Written(l + "\r\r\n", []) == l + "\r\n" && Written(l + "\r\n", []) == l + "\n"
  {
    OneLineWritten(l + "\r");
    OneLineWritten(l);
    assert l + "\r" + "\r\n" == l + "\r\r\n" && l + "\r" + "\n" == l + "\r\n";
  }

  /** A value that ends in a carriage return loses it when the file is written. */
  lemma ValueLosesCarriageReturn(e: Entry)
    requires ValidKey(e.key) && ValidValue(e.value)
    ensures var contents := Render1(e) + "\r\r\n";
            Value(contents, e.key) == Some(e.value + "\r") && Value(Written(contents, []), e.key) == Some(e.value)
  {
    var contents, l := Render1(e) + "\r\r\n", Render1(Entry(e.key, e.value + "\r"));
    assert Render1(e) + "\r" == l && l + "\r\n" == contents;
    OneLineValue(l, Entry(e.key, e.value + "\r"));
    OtherKeysKept(contents, [], e.key);
    assert StripCr(e.value + "\r") == e.value;
  }

  lemma OneLineValue(l: string, e: Entry)
    requires ValidKey(e.key) && l == Render1(e) && '\n' !in e.value
    ensures Value(l + "\r\n", e.key) == Some(e.value)
  {
    OneLine(l + "\r");
    assert l + "\r" + "\n" == l + "\r\n" && StripCr(l + "\r") == l;
    SplitRendered(e);
    assert [l][..0] == [];
  }

  lemma OneLineWritten(l: string)
    requires '\n' !in l
    ensures Written(l + "\r\n", []) == l + "\n"
  {
    OneLine(l + "\r");
    assert l + "\r" + "\n" == l + "\r\n" && StripCr(l + "\r") == l;
    assert NewLines([l], []) == [l] && [l][1..] == [];
    assert Unlines([l]) == l + "\n" + Unlines([]) && l + "\n" + "" == l + "\n";
  }

  lemma OneLine(l: string)
    requires '\n' !in l
    ensures Lines(l + "\n") == [StripCr(l)]
  {
    FindLine(l, "");
    assert l + "\n" + "" == l + "\n";
    assert (l + "\n")[..|l|] == l && (l + "\n")[|l| + 1..] == "";
  }
}
