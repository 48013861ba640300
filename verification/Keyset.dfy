/** Keyset paging: the list handlers sort by (key, id), cut after the page size and continue after
    the last row shown. Following the cursors shows the whole list, and each row at most once even
    while the table changes between the pages. */
module Keyset {
  import opened Common
  import opened OrderBy

  /** The page starts at the top or after a row: the condition `key>? OR (key=? AND id>?)`. */
  datatype Cursor = Start | After(row: Row)

  /** `nextCursor`, empty on the last page. */
  datatype Next = End | More(row: Row)
  datatype Page = Page(items: seq<Row>, next: Next)

  predicate Beyond(c: Cursor, r: Row) {
    c.Start? || Before(c.row, r)
  }

  function Matching(table: set<Row>, c: Cursor): set<Row> {
    set r | r in table && Beyond(c, r)
  }

  lemma NotLater(q: seq<Row>, i: nat, j: nat)
    requires Ordered(q) && i < |q| && j < |q| && !Before(q[j], q[i])
    ensures i <= j
  {
  }

  lemma Later(q: seq<Row>, i: nat, j: nat)
    requires Ordered(q) && i < |q| && j < |q| && Before(q[i], q[j])
    ensures i < j
  {
  }

  /** An ordered list is the sorted list of its rows. */
  lemma {:induction false} OrderedIsSorted(q: seq<Row>, s: set<Row>)
    requires Ordered(q) && forall r :: r in q <==> r in s
    ensures q == Sorted(s)
    decreases |q|
  {
    if q == [] {
      assert s == {};
    } else {
      assert q[0] in s;
      HeadIsFirst(q, s, First(s));
      TailIsRest(q, s);
      OrderedIsSorted(q[1..], s - {q[0]});
      assert q == [q[0]] + q[1..];
    }
  }

  lemma HeadIsFirst(q: seq<Row>, s: set<Row>, a: Row)
    requires |q| > 0 && Ordered(q) && (forall r :: r in q <==> r in s) && IsFirst(s, a)
    ensures q[0] == a
  {
    assert a in q && q[0] in s;
    var i :| 0 <= i < |q| && q[i] == a;
    assert i == 0 || Before(q[0], q[i]);
  }

  lemma TailIsRest(q: seq<Row>, s: set<Row>)
    requires |q| > 0 && Ordered(q) && forall r :: r in q <==> r in s
    ensures forall r :: r in q[1..] <==> r in s - {q[0]}
  {
    forall r | r in q[1..] ensures r in q && r != q[0] {
      var j :| 0 <= j < |q| - 1 && q[1..][j] == r;
      assert q[j + 1] == r && Before(q[0], q[j + 1]);
    }
    assert q == [q[0]] + q[1..];
  }

  /** `parseOpenAPILimit`: a page size between 1 and the maximum, whatever was asked for. */
  function PageSize(asked: int, default: nat, max: nat): (n: nat)
    requires 1 <= default <= max
    ensures 1 <= n <= max
    ensures 1 <= asked <= max ==> n == asked
  {
    if asked <= 0 then default else if asked > max then max else asked
  }

  /** One request: up to `limit + 1` rows beyond the cursor, the last one only to know that there
      is a next page. */
  function Fetch(table: set<Row>, c: Cursor, limit: nat): (p: Page)
    requires limit >= 1
  {
    Cut(Sorted(Matching(table, c)), limit)
  }

  function Cut(all: seq<Row>, limit: nat): (p: Page)
    requires limit >= 1
  {
    var rows := if |all| > limit + 1 then all[..limit + 1] else all;
    if |rows| > limit then Page(rows[..limit], More(rows[limit - 1])) else Page(rows, End)
  }

  /** The handlers' loop over the result of a query that asks for one row more than a page holds. */
  method ListPage(result: seq<Row>, limit: nat) returns (page: Page)
    requires limit >= 1
    ensures page == Cut(result, limit)
  {
    var items := [];
    var i := 0;
    while i < |result| && i < limit + 1
      invariant 0 <= i <= |result| && i <= limit + 1
      invariant items == result[..i]
    {
      items := items + [result[i]];
      i := i + 1;
    }
    var next := End;
    if |items| > limit {
      items := items[..limit];
      next := More(items[|items| - 1]);
    }
    page := Page(items, next);
  }

  /** A cut takes the longest prefix that fits, and names its last row when rows are left over. */
  lemma CutIsPrefix(all: seq<Row>, limit: nat)
    requires limit >= 1
    ensures var p, n := Cut(all, limit), Min(limit, |all|);
            && p.items == all[..n]
            && (p.next.End? <==> n == |all|)
            && (p.next.More? ==> p.next.row == all[n - 1])
  {
  }

  /** A page is ordered, comes from the table, lies beyond its cursor, and leaves out no row of the
      table up to its own end. */
  ghost predicate PageOk(table: set<Row>, c: Cursor, p: Page) {
    && Ordered(p.items)
    && (forall r :: r in p.items ==> r in table && Beyond(c, r))
    && (p.next.More? ==> p.next.row in p.items && forall r :: r in p.items ==> !Before(p.next.row, r))
    && (forall r :: r in table && Beyond(c, r) && (p.next.End? || !Before(p.next.row, r)) ==> r in p.items)
  }

  lemma PageIsComplete(table: set<Row>, c: Cursor, limit: nat)
    requires limit >= 1
    ensures PageOk(table, c, Fetch(table, c, limit)) && |Fetch(table, c, limit).items| <= limit
  {
    var m := Matching(table, c);
    SortedLists(m);
    CutIsPrefix(Sorted(m), limit);
    PrefixIsPage(table, c, m, Sorted(m), Cut(Sorted(m), limit), Min(limit, |Sorted(m)|));
  }

  lemma PrefixIsPage(table: set<Row>, c: Cursor, m: set<Row>, all: seq<Row>, p: Page, n: nat)
    requires m == Matching(table, c) && Lists(all, m) && n <= |all| && p.items == all[..n]
    requires (p.next.End? <==> n == |all|) && (p.next.More? ==> n >= 1 && p.next.row == all[n - 1])
    ensures PageOk(table, c, p)
  {
    forall r | r in p.items ensures r in table && Beyond(c, r) && (p.next.More? ==> !Before(p.next.row, r)) {
      var i :| 0 <= i < n && p.items[i] == r;
      assert all[i] in m;
      assert p.next.More? && i < n - 1 ==> Before(all[i], all[n - 1]);
    }
    if p.next.More? { assert p.items[n - 1] == p.next.row; }
    forall r | r in table && Beyond(c, r) && (p.next.End? || !Before(p.next.row, r)) ensures r in p.items {
      assert r in m && r in all;
      var i :| 0 <= i < |all| && all[i] == r;
      if p.next.More? { NotLater(all, i, n - 1); }
      assert p.items[i] == r;
    }
  }

  // ---- Following the cursors ----

  /** What a client has after some pages: the rows shown, where it stands, and whether the last
      page was the end. */
  datatype Walk = Walk(shown: seq<Row>, at: Cursor, ended: bool)

  function Take(w: Walk, p: Page): Walk {
    Walk(w.shown + p.items, if p.next.More? then After(p.next.row) else w.at, p.next.End?)
  }

  /** Page k is fetched from `tables[k]`, the table as it is at that moment. */
  function Follow(tables: seq<set<Row>>, limit: nat): (w: Walk)
    requires limit >= 1
    decreases |tables|
  {
    if tables == [] then Walk([], Start, false)
    else
      var w := Follow(tables[..|tables| - 1], limit);
      if w.ended then w else Take(w, Fetch(tables[|tables| - 1], w.at, limit))
  }

  /** A row that stayed in the table for the whole walk. */
  predicate Throughout(tables: seq<set<Row>>, r: Row) {
    forall k :: 0 <= k < |tables| ==> r in tables[k]
  }

  predicate Sometime(tables: seq<set<Row>>, r: Row) {
    exists k :: 0 <= k < |tables| && r in tables[k]
  }

  ghost predicate WalkOk(tables: seq<set<Row>>, w: Walk) {
    && Ordered(w.shown)
    && (forall r :: r in w.shown && !w.ended ==> !Beyond(w.at, r))
    && (forall r :: r in w.shown ==> Sometime(tables, r))
    && (forall r :: Throughout(tables, r) && (w.ended || !Beyond(w.at, r)) ==> r in w.shown)
  }

  /** Whatever is inserted or deleted between the pages: the rows shown are in strict list order,
      so none is shown twice; each was in the table when its page was read; and once the walk has
      ended no row that was there throughout is missing. */
  lemma {:induction false} WalkIsExact(tables: seq<set<Row>>, limit: nat)
    requires limit >= 1
    ensures WalkOk(tables, Follow(tables, limit))
    decreases |tables|
  {
    if tables != [] {
      var n := |tables| - 1;
      WalkIsExact(tables[..n], limit);
      var w := Follow(tables[..n], limit);
      TimesOneMore(tables);
      if !w.ended {
        PageIsComplete(tables[n], w.at, limit);
        OnePageMore(tables, w, Fetch(tables[n], w.at, limit));
      }
    }
  }

  lemma TimesOneMore(tables: seq<set<Row>>)
    requires |tables| > 0
    ensures var n := |tables| - 1;
            && (forall r :: Throughout(tables, r) ==> Throughout(tables[..n], r) && r in tables[n])
            && (forall r :: Sometime(tables[..n], r) || r in tables[n] ==> Sometime(tables, r))
  {
    var n := |tables| - 1;
    assert forall k :: 0 <= k < n ==> tables[..n][k] == tables[k];
    forall r | Sometime(tables[..n], r) ensures Sometime(tables, r) {
      var k :| 0 <= k < n && r in tables[..n][k];
      assert r in tables[k];
    }
  }

  lemma OnePageMore(tables: seq<set<Row>>, w: Walk, p: Page)
    requires |tables| > 0 && !w.ended && WalkOk(tables[..|tables| - 1], w) && PageOk(tables[|tables| - 1], w.at, p)
    ensures WalkOk(tables, Take(w, p))
  {
    TimesOneMore(tables);
    var shown := w.shown + p.items;
    forall i, j | 0 <= i < j < |shown| ensures Before(shown[i], shown[j]) {
      if i < |w.shown| <= j {
        assert shown[i] in w.shown && shown[j] in p.items;
      }
    }
    if p.next.More? {
      forall r | r in shown ensures !Before(p.next.row, r) {
        if r in w.shown { assert p.next.row in p.items; }
      }
    }
  }

  // ---- An unchanged table ----

  /** The table, unchanged, for `n` requests. */
  function Still(table: set<Row>, n: nat): (ts: seq<set<Row>>) { seq(n, i => table) }

  /** The cursor after the first `k` rows of the list. */
  function CursorAt(q: seq<Row>, k: nat): Cursor
    requires k <= |q|
  {
    if k == 0 then Start else After(q[k - 1])
  }

  lemma RestIsSorted(table: set<Row>, q: seq<Row>, k: nat)
    requires Lists(q, table) && k <= |q|
    ensures Sorted(Matching(table, CursorAt(q, k))) == q[k..]
  {
    var rest := Matching(table, CursorAt(q, k));
    forall r | r in q[k..] ensures r in rest {
      var i :| 0 <= i < |q| - k && q[k..][i] == r;
      assert q[k + i] in table;
      assert k > 0 ==> Before(q[k - 1], q[k + i]);
    }
    forall r | r in rest ensures r in q[k..] {
      assert r in q;
      var i :| 0 <= i < |q| && q[i] == r;
      if k > 0 { Later(q, k - 1, i); }
      assert q[k..][i - k] == r;
    }
    OrderedIsSorted(q[k..], rest);
  }

  /** Where a walk over an unchanged table stands after showing the first `k` rows of its list. */
  ghost predicate Reached(q: seq<Row>, k: nat, w: Walk) {
    && k <= |q|
    && w.shown == q[..k]
    && (w.ended <==> k == |q|)
    && (!w.ended ==> w.at == CursorAt(q, k))
  }

  /** How many of `total` rows `n` pages show. */
  function ShownBy(n: nat, limit: nat, total: nat): (k: nat)
    ensures k <= total
  {
    if n == 0 then 0 else Min(ShownBy(n - 1, limit, total) + limit, total)
  }

  lemma {:induction false} ShownByIs(n: nat, limit: nat, total: nat)
    ensures ShownBy(n, limit, total) == Min(n * limit, total)
  {
    if n > 0 {
      ShownByIs(n - 1, limit, total);
      assert n * limit == (n - 1) * limit + limit;
    }
  }

  /** Over an unchanged table the walk shows the sorted list page by page, in order and without a
      gap, and it is at the end exactly once everything is shown. */
  lemma {:induction false} StillWalk(table: set<Row>, limit: nat, n: nat)
    requires limit >= 1 && n >= 1
    ensures Reached(Sorted(table), ShownBy(n, limit, |table|), Follow(Still(table, n), limit))
  {
    var q := Sorted(table);
    SortedLists(table);
    var b := Follow(Still(table, n - 1), limit);
    OneMore(table, limit, n, b);
    if n == 1 {
      assert b == Walk([], Start, false) && q[..0] == [];
      StillPage(table, q, limit, 0, b);
    } else {
      StillWalk(table, limit, n - 1);
      StillStep(table, q, limit, ShownBy(n - 1, limit, |table|), b);
    }
  }

  lemma OneMore(table: set<Row>, limit: nat, n: nat, b: Walk)
    requires limit >= 1 && n >= 1 && b == Follow(Still(table, n - 1), limit)
    ensures Follow(Still(table, n), limit) == if b.ended then b else Take(b, Fetch(table, b.at, limit))
  {
    assert Still(table, n)[..n - 1] == Still(table, n - 1);
  }

  lemma StillStep(table: set<Row>, q: seq<Row>, limit: nat, k: nat, b: Walk)
    requires limit >= 1 && Lists(q, table) && Reached(q, k, b)
    ensures Reached(q, Min(k + limit, |q|), if b.ended then b else Take(b, Fetch(table, b.at, limit)))
  {
    if !b.ended { StillPage(table, q, limit, k, b); }
  }

  lemma StillPage(table: set<Row>, q: seq<Row>, limit: nat, k: nat, w: Walk)
    requires limit >= 1 && Lists(q, table) && k <= |q| && w.shown == q[..k] && w.at == CursorAt(q, k)
    ensures Reached(q, Min(k + limit, |q|), Take(w, Fetch(table, w.at, limit)))
  {
    RestIsSorted(table, q, k);
    CutIsPrefix(q[k..], limit);
    TakePrefix(q, k, Min(k + limit, |q|), w, Cut(q[k..], limit));
  }

  lemma TakePrefix(q: seq<Row>, k: nat, e: nat, w: Walk, p: Page)
    requires k <= e <= |q| && w.shown == q[..k] && p.items == q[k..][..e - k]
    requires (p.next.End? <==> e == |q|) && (p.next.More? ==> e > k && p.next.row == q[k..][e - k - 1])
    ensures Reached(q, e, Take(w, p))
  {
    assert q[k..][..e - k] == q[k..e] && q[..k] + q[k..e] == q[..e];
  }

  /** Termination: a client that follows the cursors of an unchanged table has seen the whole list,
      in order, after as many requests as there are pages. */
  lemma StillWalkEnds(table: set<Row>, limit: nat, n: nat)
    requires limit >= 1 && n >= 1 && n * limit >= |table|
    ensures Follow(Still(table, n), limit).ended
    ensures Follow(Still(table, n), limit).shown == Sorted(table)
  {
    StillWalk(table, limit, n);
    ShownByIs(n, limit, |table|);
    SortedLists(table);
  }
}
