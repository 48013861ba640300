/** Inbound forwarding marks every copy it sends with a header, and never forwards a marked
    message: so no message is forwarded twice, whatever the forwarding graph. */
module Forwarding {
  import opened Common

  const CRLF := "\r\n"
  const HEADER_NAME := "X-imyemail-Forwarded-By"
  const MARK := "x-imyemail-forwarded-by:"

  predicate At(s: string, sub: string, i: int) {
    0 <= i <= |s| - |sub| && s[i..i + |sub|] == sub
  }

  /** Go's bytes.Index, searching from `from`. */
  function IndexFrom(s: string, sub: string, from: nat): (i: int)
    ensures i >= 0 ==> from <= i && At(s, sub, i)
    ensures i < 0 ==> i == -1 && forall j {:trigger At(s, sub, j)} :: from <= j ==> !At(s, sub, j)
    ensures forall j {:trigger At(s, sub, j)} :: from <= j < i ==> !At(s, sub, j)
    decreases |s| - from
  {
    if At(s, sub, from) then from
    else if from >= |s| then -1
    else IndexFrom(s, sub, from + 1)
  }

  function Index(s: string, sub: string): (i: int)
    ensures i >= 0 ==> At(s, sub, i)
    ensures i < 0 ==> i == -1 && forall j {:trigger At(s, sub, j)} :: !At(s, sub, j)
    ensures forall j {:trigger At(s, sub, j)} :: j < i ==> !At(s, sub, j)
  {
    IndexFrom(s, sub, 0)
  }

  predicate Contains(s: string, sub: string) { Index(s, sub) >= 0 }

  /** Where the header block ends: at the first blank line, CRLF or bare LF. */
  function HeaderEnd(raw: string): (n: nat)
    ensures n <= |raw|
  {
    var i, j := Index(raw, "\r\n\r\n"), Index(raw, "\n\n");
    if i >= 0 then i else if j >= 0 then j else |raw|
  }

  predicate HasForwardingHeader(raw: string) {
    Contains(Lower(raw[..HeaderEnd(raw)]), MARK)
  }

  /** Where a blank line begins: a CRLF one, or, in a text that has none, one of bare LF. */
  ghost predicate BlankAt(raw: string, j: int) {
    At(raw, "\r\n\r\n", j)
    || (At(raw, "\n\n", j) && forall i {:trigger At(raw, "\r\n\r\n", i)} :: !At(raw, "\r\n\r\n", i))
  }

  /** The mark, in letters of either case, stands at `i`. */
  ghost predicate MarkAt(raw: string, i: int) {
    0 <= i <= |raw| - |MARK| && forall k :: 0 <= k < |MARK| ==> LowerChar(raw[i + k]) == MARK[k]
  }

  /** A message counts as forwarded exactly when the mark stands somewhere before all blank lines. */
  lemma RecognisedExactlyWhen(raw: string)
    ensures HasForwardingHeader(raw) <==> exists i :: MarkAt(raw, i) && forall j :: BlankAt(raw, j) ==> i + |MARK| <= j
  {
    MarkWithin(raw, HeaderEnd(raw));
    HeaderEndsFirst(raw);
  }

  lemma MarkWithin(raw: string, n: nat)
    requires n <= |raw|
    ensures Contains(Lower(raw[..n]), MARK) <==> exists i :: MarkAt(raw, i) && i + |MARK| <= n
  {
    var low := Lower(raw[..n]);
    if Contains(low, MARK) {
      var i := Index(low, MARK);
      forall k | 0 <= k < |MARK| ensures LowerChar(raw[i + k]) == MARK[k] {
        assert low[i..i + |MARK|][k] == low[i + k];
      }
      assert MarkAt(raw, i);
    }
    if i :| MarkAt(raw, i) && i + |MARK| <= n {
      assert low[i..i + |MARK|] == MARK;
      assert At(low, MARK, i);
    }
  }

  lemma HeaderEndsFirst(raw: string)
    ensures HeaderEnd(raw) == |raw| || BlankAt(raw, HeaderEnd(raw))
    ensures forall j :: BlankAt(raw, j) ==> HeaderEnd(raw) <= j
  {
  }

  function ForwardingHeader(host: string, address: string): string {
    HEADER_NAME + ": " + (if host == "" then "imyemail.local" else host) + CRLF
      + "X-imyemail-Forwarded-For: " + address + CRLF
  }

  /** strings.ReplaceAll(s, "\r\n", "\n"). */
  function ToLF(s: string): (r: string) {
    if s == "" then ""
    else if At(s, CRLF, 0) then "\n" + ToLF(s[2..])
    else [s[0]] + ToLF(s[1..])
  }

  /** Where the new headers go, and in which line ending. */
  function InsertPoint(raw: string): (n: nat)
    ensures n <= |raw|
  {
    var i, j := Index(raw, "\r\n\r\n"), Index(raw, "\n\n");
    if i >= 0 then i + 2 else if j >= 0 then j + 1 else 0
  }

  function Block(raw: string, host: string, address: string): string {
    var header := ForwardingHeader(host, address);
    if Index(raw, "\r\n\r\n") >= 0 then header
    else if Index(raw, "\n\n") >= 0 then ToLF(header)
    else header + CRLF
  }

  /** `addForwardingHeaders`, its address and host name already normalised. */
  function AddForwardingHeaders(raw: string, host: string, address: string): string {
    var header := ForwardingHeader(host, address);
    var i, j := Index(raw, "\r\n\r\n"), Index(raw, "\n\n");
    if i >= 0 then raw[..i] + (CRLF + header) + raw[i + 2..]
    else if j >= 0 then raw[..j] + ("\n" + ToLF(header)) + raw[j + 1..]
    else (header + CRLF) + raw
  }

  /** Whatever the branch, the block is inserted and everything else stays where it was. */
  lemma OnlyInserts(raw: string, host: string, address: string)
    ensures var out, k, block := AddForwardingHeaders(raw, host, address), InsertPoint(raw), Block(raw, host, address);
            out == raw[..k] + block + raw[k..]
            && out[..k] + out[k + |block|..] == raw
  {
    var i, j := Index(raw, "\r\n\r\n"), Index(raw, "\n\n");
    var k, block := InsertPoint(raw), Block(raw, host, address);
    if i >= 0 {
      assert raw[i..i + 4][..2] == CRLF;
      Splice(raw, i, CRLF, block);
    } else if j >= 0 {
      assert raw[j..j + 2][..1] == "\n";
      Splice(raw, j, "\n", block);
    } else {
      assert raw[..0] + block + raw[0..] == block + raw;
    }
    TakeOut(raw, k, block);
  }

  lemma Splice(raw: string, i: nat, glue: string, block: string)
    requires i + |glue| <= |raw| && raw[i..i + |glue|] == glue
    ensures raw[..i] + (glue + block) + raw[i + |glue|..] == raw[..i + |glue|] + block + raw[i + |glue|..]
  {
    assert raw[..i + |glue|] == raw[..i] + glue;
  }

  lemma TakeOut(raw: string, k: nat, block: string)
    requires k <= |raw|
    ensures var out := raw[..k] + block + raw[k..]; out[..k] + out[k + |block|..] == raw && out[..k] == raw[..k]
  {
  }

  /** A message whose blank line is one of bare LF. */
  predicate UsesLF(raw: string) { Index(raw, "\r\n\r\n") < 0 && Index(raw, "\n\n") >= 0 }

  function HeaderLine(name: string, value: string, end: string): string { name + ": " + value + end }

  /** The block is two header lines, ended as the message ends its own: who forwarded it and for which
      address. A message without a header block gets a blank line after them. */
  lemma BlockSays(raw: string, host: string, address: string)
    requires '\r' !in host && '\r' !in address
    ensures var end := if UsesLF(raw) then "\n" else CRLF;
            var who := HeaderLine("X-imyemail-Forwarded-By", if host == "" then "imyemail.local" else host, end);
            var lines := who + HeaderLine("X-imyemail-Forwarded-For", address, end);
            Block(raw, host, address) == if Index(raw, "\r\n\r\n") >= 0 || UsesLF(raw) then lines else lines + CRLF
  {
    var name := if host == "" then "imyemail.local" else host;
    HeaderIs(host, address);
    if UsesLF(raw) {
      InLF(HEADER_NAME, name, HeaderLine("X-imyemail-Forwarded-For", address, CRLF));
      InLF("X-imyemail-Forwarded-For", address, "");
      var last := HeaderLine("X-imyemail-Forwarded-For", address, CRLF);
      assert last + "" == last;
    }
  }

  lemma HeaderIs(host: string, address: string)
    ensures ForwardingHeader(host, address) ==
            HeaderLine(HEADER_NAME, if host == "" then "imyemail.local" else host, CRLF)
              + HeaderLine("X-imyemail-Forwarded-For", address, CRLF)
  {
  }

  lemma InLF(name: string, value: string, rest: string)
    requires '\r' !in name && '\r' !in value
    ensures ToLF(HeaderLine(name, value, CRLF) + rest) == HeaderLine(name, value, "\n") + ToLF(rest)
  {
    ToLFLine(name + ": " + value, rest);
  }

  lemma {:induction false} ToLFLine(line: string, rest: string)
    requires '\r' !in line
    ensures ToLF(line + CRLF + rest) == line + "\n" + ToLF(rest)
  {
    var s := line + CRLF + rest;
    if line == "" {
      assert s[..2] == CRLF && s[2..] == rest;
    } else {
      assert s[1..] == line[1..] + CRLF + rest;
      ToLFLine(line[1..], rest);
      CrlfStartsWithCr(s);
    }
  }

  lemma CrlfStartsWithCr(s: string)
    ensures At(s, CRLF, 0) ==> s[0] == '\r'
  {
    assert At(s, CRLF, 0) ==> s[0..2][0] == '\r';
  }

  lemma ToLFKeepsStart(s: string, n: nat)
    requires n <= |s| && forall i :: 0 <= i < n ==> s[i] != '\r'
    ensures |ToLF(s)| >= n && ToLF(s)[..n] == s[..n]
    decreases n
  {
    if n > 0 {
      ToLFKeepsStart(s[1..], n - 1);
      CrlfStartsWithCr(s);
      assert s[1..][..n - 1] == s[1..n];
    }
  }

  lemma BlockStartsWithName(raw: string, host: string, address: string)
    ensures var b := Block(raw, host, address); |b| >= |MARK| && b[..|MARK|] == HEADER_NAME + ":"
  {
    var header := ForwardingHeader(host, address);
    assert header[..|MARK|] == HEADER_NAME + ":";
    forall i | 0 <= i < |MARK| ensures header[i] != '\r' {
      assert header[i] == (HEADER_NAME + ":")[i];
    }
    ToLFKeepsStart(header, |MARK|);
  }

  predicate LineBreaks(sep: string) {
    |sep| >= 2 && forall i :: 0 <= i < |sep| ==> IsBreak(sep[i])
  }

  /** A run of line breaks that does not occur before the block cannot occur before the end of
      the header name that the block begins with. */
  lemma NoBreakBeforeMark(out: string, k: nat, sep: string, i: int)
    requires LineBreaks(sep) && k + |MARK| <= |out| && out[k..k + |MARK|] == HEADER_NAME + ":"
    requires forall j {:trigger At(out[..k], sep, j)} :: !At(out[..k], sep, j)
    requires At(out, sep, i)
    ensures i >= k + |MARK|
  {
    forall x | k <= x < k + |MARK| ensures !IsBreak(out[x]) {
      assert out[k..k + |MARK|][x - k] == out[x] == (HEADER_NAME + ":")[x - k];
    }
    forall x | i <= x < i + |sep| ensures IsBreak(out[x]) {
      assert out[i..i + |sep|][x - i] == out[x] == sep[x - i];
    }
    var at := if i >= k then i else k;
    assert at < i + |sep| ==> IsBreak(out[at]);
    assert at < k + |MARK| ==> !IsBreak(out[at]);
    if i + |sep| <= k {
      AtInPrefix(out, k, sep, i);
    }
  }

  predicate IsBreak(c: char) { c == '\r' || c == '\n' }

  lemma AtInPrefix(out: string, k: nat, sep: string, i: int)
    requires k <= |out| && At(out, sep, i) && i + |sep| <= k
    ensures At(out[..k], sep, i)
  {
    assert out[..k][i..i + |sep|] == out[i..i + |sep|];
  }

  lemma PrefixFree(raw: string, k: nat, sep: string)
    requires k <= |raw|
    requires forall j {:trigger At(raw, sep, j)} :: j + |sep| <= k ==> !At(raw, sep, j)
    ensures forall j {:trigger At(raw[..k], sep, j)} :: !At(raw[..k], sep, j)
  {
    forall j | At(raw[..k], sep, j) ensures false {
      assert raw[..k][j..j + |sep|] == raw[j..j + |sep|];
      assert At(raw, sep, j);
    }
  }

  lemma MarkFound(out: string, k: nat, n: nat)
    requires k + |MARK| <= n <= |out| && out[k..k + |MARK|] == HEADER_NAME + ":"
    ensures Contains(Lower(out[..n]), MARK)
  {
    var low := Lower(out[..n]);
    assert At(low, MARK, k) by {
      forall i | 0 <= i < |MARK| ensures low[k + i] == MARK[i] {
        assert out[k..k + |MARK|][i] == out[k + i] == (HEADER_NAME + ":")[i];
        assert LowerChar((HEADER_NAME + ":")[i]) == MARK[i] by { MarkIsLowered(i); }
      }
      assert low[k..k + |MARK|] == MARK;
    }
  }

  lemma MarkIsLowered(i: nat)
    requires i < |MARK|
    ensures LowerChar((HEADER_NAME + ":")[i]) == MARK[i]
  {
    assert Lower(HEADER_NAME + ":") == MARK;
  }

  /** Every copy that forwarding sends is recognised as forwarded, for every message, host name
      and address, in all three branches. */
  lemma ForwardedIsRecognised(raw: string, host: string, address: string)
    ensures HasForwardingHeader(AddForwardingHeaders(raw, host, address))
  {
    OnlyInserts(raw, host, address);
    BlockStartsWithName(raw, host, address);
    var out, k, block := AddForwardingHeaders(raw, host, address), InsertPoint(raw), Block(raw, host, address);
    MiddleOf(raw[..k], block, raw[k..], |MARK|);
    HeaderReachesMark(raw, out, k);
    if Index(raw, "\r\n\r\n") >= 0 {
      BlankLineKept(raw, host, address);
    }
    MarkFound(out, k, HeaderEnd(out));
  }

  lemma MiddleOf(a: string, b: string, c: string, n: nat)
    requires n <= |b|
    ensures (a + b + c)[|a|..|a| + n] == b[..n] && (a + b + c)[..|a|] == a && |a| + n <= |a + b + c|
  {
  }

  lemma HeaderReachesMark(raw: string, out: string, k: nat)
    requires k == InsertPoint(raw) && k + |MARK| <= |out| && out[..k] == raw[..k]
    requires out[k..k + |MARK|] == HEADER_NAME + ":"
    ensures Index(out, "\r\n\r\n") >= 0 ==> HeaderEnd(out) >= k + |MARK|
    ensures Index(raw, "\r\n\r\n") < 0 ==> HeaderEnd(out) >= k + |MARK|
  {
    var crlf, lf := "\r\n\r\n", "\n\n";
    PrefixFree(raw, k, crlf);
    if Index(out, crlf) >= 0 {
      NoBreakBeforeMark(out, k, crlf, Index(out, crlf));
    } else if Index(raw, crlf) < 0 {
      PrefixFree(raw, k, lf);
      if Index(out, lf) >= 0 {
        NoBreakBeforeMark(out, k, lf, Index(out, lf));
      }
    }
  }

  lemma BlankLineKept(raw: string, host: string, address: string)
    requires Index(raw, "\r\n\r\n") >= 0
    ensures Contains(AddForwardingHeaders(raw, host, address), "\r\n\r\n")
  {
    OnlyInserts(raw, host, address);
    var out, k, block := AddForwardingHeaders(raw, host, address), InsertPoint(raw), Block(raw, host, address);
    var e := k + |block| - 2;
    assert block[|block| - 2..] == CRLF;
    assert raw[k - 2..k + 2][2..] == CRLF && raw[k..k + 2] == CRLF;
    Seam(raw[..k], block, raw[k..]);
    assert At(out, "\r\n\r\n", e);
  }

  lemma Seam(a: string, b: string, c: string)
    requires |b| >= 2 && |c| >= 2 && b[|b| - 2..] == CRLF && c[..2] == CRLF
    ensures var e := |a| + |b| - 2; e + 4 <= |a + b + c| && (a + b + c)[e..e + 4] == "\r\n\r\n"
  {
    assert (a + b + c)[|a| + |b| - 2..|a| + |b| + 2] == b[|b| - 2..] + c[..2];
  }

  // ---- The forwarding graph ----

  /** A message as it arrives in a mailbox. */
  datatype Mail = Mail(mailbox: string, raw: string)

  /** The targets of a mailbox without itself and without repetitions, in order. */
  function Recipients(targets: seq<string>, self: string): (r: seq<string>)
    ensures self !in r && forall i, j :: 0 <= i < j < |r| ==> r[i] != r[j]
    ensures forall t :: t in r <==> t in targets && t != self
    ensures ByFirstMention(r, targets)
  {
    if targets == [] then []
    else
      var before, last := targets[..|targets| - 1], targets[|targets| - 1];
      var r := Recipients(before, self);
      assert targets == before + [last];
      MentionOneMore(r, before, last);
      if last == self || last in r then r else r + [last]
  }

  method FilterTargets(targets: seq<string>, self: string) returns (r: seq<string>)
    ensures r == Recipients(targets, self)
  {
    r := [];
    for i := 0 to |targets|
      invariant r == Recipients(targets[..i], self)
    {
      assert targets[..i + 1][..i] == targets[..i];
      if targets[i] != self && targets[i] !in r {
        r := r + [targets[i]];
      }
    }
    assert targets[..|targets|] == targets;
  }

  /** `processInboundForwarding`: the copies one arriving message causes. */
  function Copies(graph: map<string, seq<string>>, host: string, m: Mail): (copies: seq<Mail>)
    ensures HasForwardingHeader(m.raw) ==> copies == []
    ensures forall c :: c in copies ==> HasForwardingHeader(c.raw)
  {
    if m.mailbox !in graph || HasForwardingHeader(m.raw) then []
    else
      var to := Recipients(graph[m.mailbox], m.mailbox);
      ForwardedIsRecognised(m.raw, host, m.mailbox);
      seq(|to|, i requires 0 <= i < |to| => Mail(to[i], AddForwardingHeaders(m.raw, host, m.mailbox)))
  }

  /** `out` is `raw` with a block of header lines put in, and recognised as forwarded. */
  ghost predicate MarkedCopy(out: string, raw: string, block: string) {
    && HasForwardingHeader(out)
    && exists k :: 0 <= k <= |raw| && out == raw[..k] + block + raw[k..] && out[..k] + out[k + |block|..] == raw
  }

  function Mailboxes(ms: seq<Mail>): (r: seq<string>)
    ensures |r| == |ms| && forall i :: 0 <= i < |r| ==> r[i] == ms[i].mailbox
  {
    seq(|ms|, i requires 0 <= i < |ms| => ms[i].mailbox)
  }

  /** The targets that count for a message: none when it is marked. */
  function TargetsOf(graph: map<string, seq<string>>, m: Mail): seq<string> {
    if HasForwardingHeader(m.raw) || m.mailbox !in graph then [] else graph[m.mailbox]
  }

  /** One marked copy arrives in each target other than the mailbox itself, and none elsewhere, in the
      order in which the targets are first listed. */
  ghost predicate ReachTargets(copies: seq<Mail>, first: Mail, targets: seq<string>, host: string) {
    var to := Mailboxes(copies);
    && Distinct(to) && (forall x :: x in to <==> x in targets && x != first.mailbox) && ByFirstMention(to, targets)
    && forall c :: c in copies ==> MarkedCopy(c.raw, first.raw, Block(first.raw, host, first.mailbox))
  }

  lemma CopiesReachTargets(graph: map<string, seq<string>>, host: string, m: Mail)
    ensures ReachTargets(Copies(graph, host, m), m, TargetsOf(graph, m), host)
  {
    var copies, targets := Copies(graph, host, m), TargetsOf(graph, m);
    if targets != [] {
      OnlyInserts(m.raw, host, m.mailbox);
      assert Mailboxes(copies) == Recipients(targets, m.mailbox);
    }
  }

  /** Let a message and all copies it causes arrive, one after the other. It ends for every graph,
      cycles included: one arrival, and one for each direct target. */
  method Deliver(graph: map<string, seq<string>>, host: string, first: Mail) returns (arrived: seq<Mail>)
    ensures arrived == [first] + Copies(graph, host, first)
    ensures arrived != [] && arrived[0] == first && ReachTargets(arrived[1..], first, TargetsOf(graph, first), host)
  {
    CopiesReachTargets(graph, host, first);
    arrived := [];
    var queue := [first];
    ghost var all := [first] + Copies(graph, host, first);
    while queue != []
      invariant Underway(arrived, queue, first, all)
      decreases arrived == [], |queue|
    {
      var m := queue[0];
      var copies := Copies(graph, host, m);
      OneArrival(arrived, queue, first, all, copies);
      queue := queue[1..] + copies;
      arrived := arrived + [m];
    }
  }

  /** After the first arrival, what has arrived and what is queued is all there will ever be. */
  ghost predicate Underway(arrived: seq<Mail>, queue: seq<Mail>, first: Mail, all: seq<Mail>) {
    if arrived == [] then queue == [first]
    else arrived + queue == all && forall m :: m in queue ==> HasForwardingHeader(m.raw)
  }

  lemma OneArrival(arrived: seq<Mail>, queue: seq<Mail>, first: Mail, all: seq<Mail>, copies: seq<Mail>)
    requires Underway(arrived, queue, first, all) && queue != []
    requires HasForwardingHeader(queue[0].raw) && arrived != [] ==> copies == []
    requires arrived == [] ==> all == [first] + copies && forall c :: c in copies ==> HasForwardingHeader(c.raw)
    ensures Underway(arrived + [queue[0]], queue[1..] + copies, first, all)
    ensures arrived != [] ==> copies == []
  {
    if arrived == [] {
      assert queue[1..] + copies == copies && arrived + [queue[0]] == [first];
    } else {
      assert queue[0] in queue;
      assert arrived + [queue[0]] + (queue[1..] + copies) == arrived + queue;
    }
  }

  /** No copy is ever forwarded again. */
  lemma CopiesAreFinal(graph: map<string, seq<string>>, graph2: map<string, seq<string>>, host: string, m: Mail,
        c: Mail)
    requires c in Copies(graph, host, m)
    ensures Copies(graph2, host, c) == []
  {
  }
}
