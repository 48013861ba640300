/** `ORDER BY key,id`, over table rows and over sets of row ids. */
module OrderBy {
  import opened Common

  /** A row as far as ordering looks at it: its sort key and its id. A list sorted newest first, by
      both columns descending, is this list with both signs turned round. */
  datatype Row = Row(key: int, id: int)

  /** Rows compare by their key, then by id. */
  predicate Before(a: Row, b: Row) {
    a.key < b.key || (a.key == b.key && a.id < b.id)
  }

  predicate Ordered(q: seq<Row>) {
    forall i, j :: 0 <= i < j < |q| ==> Before(q[i], q[j])
  }

  predicate IsFirst(s: set<Row>, a: Row) {
    a in s && forall b :: b in s && b != a ==> Before(a, b)
  }

  lemma FirstExists(s: set<Row>)
    requires s != {}
    ensures exists a :: IsFirst(s, a)
  {
    var x :| x in s;
    if s == {x} {
      assert IsFirst(s, x);
    } else {
      var rest := s - {x};
      assert s == rest + {x};
      FirstExists(rest);
      var a :| IsFirst(rest, a);
      var first := if Before(a, x) then a else x;
      forall b | b in s && b != first ensures Before(first, b) {
        assert b == x || b == a || Before(a, b);
      }
      assert IsFirst(s, first);
    }
  }

  function First(s: set<Row>): (a: Row)
    requires s != {}
    ensures IsFirst(s, a)
  {
    FirstExists(s);
    var a :| IsFirst(s, a);
    a
  }

  /** The rows in list order. */
  function Sorted(s: set<Row>): (q: seq<Row>) {
    if s == {} then [] else var a := First(s); [a] + Sorted(s - {a})
  }

  ghost predicate Lists(q: seq<Row>, s: set<Row>) {
    Ordered(q) && |q| == |s| && forall r :: r in q <==> r in s
  }

  lemma {:induction false} SortedLists(s: set<Row>)
    ensures Lists(Sorted(s), s)
    decreases |s|
  {
    if s != {} {
      var a := First(s);
      SortedLists(s - {a});
      var q := Sorted(s - {a});
      assert Sorted(s) == [a] + q && |s| == 1 + |s - {a}|;
      assert s == {a} + (s - {a});
      forall j | 0 <= j < |q| ensures Before(a, q[j]) {
        assert q[j] in s - {a};
      }
    }
  }

  // ---- Sets of ids, with a key for each ----

  predicate IdBefore(key: map<nat, int>, a: nat, b: nat)
    requires a in key && b in key
  {
    Before(Row(key[a], a), Row(key[b], b))
  }

  function RowsOf(ids: set<nat>, key: map<nat, int>): set<Row>
    requires ids <= key.Keys
  {
    set id | id in ids :: Row(key[id], id)
  }

  lemma {:induction false} RowsCount(ids: set<nat>, key: map<nat, int>)
    requires ids <= key.Keys
    ensures |RowsOf(ids, key)| == |ids|
    decreases |ids|
  {
    if ids != {} {
      var id :| id in ids;
      RowsCount(ids - {id}, key);
      assert RowsOf(ids, key) == RowsOf(ids - {id}, key) + {Row(key[id], id)};
      assert Row(key[id], id) !in RowsOf(ids - {id}, key);
    }
  }

  /** The ids in ascending order of key, ties by id. */
  function SortedIds(ids: set<nat>, key: map<nat, int>): (s: seq<nat>)
    requires ids <= key.Keys
    ensures |s| == |ids|
    ensures forall a :: a in s <==> a in ids
    ensures forall i, j :: 0 <= i < j < |s| ==> IdBefore(key, s[i], s[j])
  {
    var q := Sorted(RowsOf(ids, key));
    SortedLists(RowsOf(ids, key));
    RowsCount(ids, key);
    assert forall i :: 0 <= i < |q| ==> q[i] in RowsOf(ids, key);
    var s := seq(|q|, i requires 0 <= i < |q| => q[i].id as nat);
    assert forall a :: a in s <==> a in ids by { IdsOfRows(ids, key, q, s); }
    s
  }

  lemma IdsOfRows(ids: set<nat>, key: map<nat, int>, q: seq<Row>, s: seq<nat>)
    requires ids <= key.Keys && forall r :: r in q <==> r in RowsOf(ids, key)
    requires |s| == |q| && forall i :: 0 <= i < |q| ==> s[i] == q[i].id
    ensures forall a :: a in s <==> a in ids
  {
    forall a | a in ids ensures a in s {
      assert Row(key[a], a) in q;
      var i :| 0 <= i < |q| && q[i] == Row(key[a], a);
      assert s[i] == a;
    }
    forall a | a in s ensures a in ids {
      var i :| 0 <= i < |s| && s[i] == a;
      assert q[i] in RowsOf(ids, key);
    }
  }

  lemma SortedIsDistinct(ids: set<nat>, key: map<nat, int>)
    requires ids <= key.Keys
    ensures Distinct(SortedIds(ids, key))
  {
    var s := SortedIds(ids, key);
    forall i, j | 0 <= i < j < |s| ensures s[i] != s[j] {
      assert IdBefore(key, s[i], s[j]);
    }
  }
}
