/** Sorted lists of rows: there is exactly one, so a query that orders and a sort afterwards give the same. */
module Listings {

  /** A strict total order on some rows. */
  ghost predicate Orders<T(!new)>(before: (T, T) -> bool, rows: set<T>) {
    && (forall a :: a in rows ==> !before(a, a))
    && (forall a, b :: a in rows && b in rows && a != b ==> before(a, b) || before(b, a))
    && (forall a, b, c :: a in rows && b in rows && c in rows && before(a, b) && before(b, c) ==> before(a, c))
  }

  predicate Ascending<T(!new)>(list: seq<T>, before: (T, T) -> bool) {
    forall i, j :: 0 <= i < j < |list| ==> before(list[i], list[j])
  }

  /** What ORDER BY promises: every row, and each before the next. */
  ghost predicate InOrder<T(!new)>(list: seq<T>, rows: set<T>, before: (T, T) -> bool) {
    (forall x :: x in list <==> x in rows) && Ascending(list, before)
  }

  predicate Once<T(==)>(s: seq<T>) {
    forall i, j :: 0 <= i < j < |s| ==> s[i] != s[j]
  }

  lemma FirstIsLeast<T(!new)>(list: seq<T>, rows: set<T>, before: (T, T) -> bool)
    requires InOrder(list, rows, before) && Orders(before, rows) && list != []
    ensures list[0] in rows && forall x :: x in rows && x != list[0] ==> before(list[0], x)
    ensures InOrder(list[1..], rows - {list[0]}, before)
  {
    assert list[0] in list;
    forall x | x in rows && x != list[0]
      ensures before(list[0], x)
    {
      assert x in list;
    }
    forall x
      ensures x in list[1..] <==> x in rows - {list[0]}
    {
      if x in list[1..] {
        var i :| 1 <= i < |list| && list[i] == x;
        assert x in list && before(list[0], x);
      }
    }
  }

  lemma FewerOrders<T(!new)>(before: (T, T) -> bool, rows: set<T>, some: set<T>)
    requires Orders(before, rows) && some <= rows
    ensures Orders(before, some)
  {
  }

  lemma EmptyTogether<T(!new)>(list: seq<T>, rows: set<T>, before: (T, T) -> bool)
    requires InOrder(list, rows, before)
    ensures list == [] <==> rows == {}
  {
    if list != [] {
      assert list[0] in list;
    }
    if rows != {} {
      var x :| x in rows;
      assert x in list;
    }
  }

  /** No two lists hold the same rows in order. */
  lemma {:induction false} OneOrder<T(!new)>(a: seq<T>, b: seq<T>, rows: set<T>, before: (T, T) -> bool)
    requires Orders(before, rows) && InOrder(a, rows, before) && InOrder(b, rows, before)
    ensures a == b
    decreases |a|
  {
    if a == [] || b == [] {
      EmptyTogether(a, rows, before);
      EmptyTogether(b, rows, before);
    } else {
      FirstIsLeast(a, rows, before);
      FirstIsLeast(b, rows, before);
      assert a[0] == b[0];
      FewerOrders(before, rows, rows - {a[0]});
      OneOrder(a[1..], b[1..], rows - {a[0]}, before);
      assert a == [a[0]] + a[1..] && b == [b[0]] + b[1..];
    }
  }

  // ------------------------------------------------------------------ sorting

  function Inserted<T(==)>(x: T, s: seq<T>, before: (T, T) -> bool): seq<T> {
    if s == [] || before(x, s[0]) then [x] + s else [s[0]] + Inserted(x, s[1..], before)
  }

  /** sort.Slice with a comparison. */
  function Sorted<T(==)>(s: seq<T>, before: (T, T) -> bool): seq<T> {
    if s == [] then [] else Inserted(s[0], Sorted(s[1..], before), before)
  }

  lemma AscendingCons<T(!new)>(x: T, s: seq<T>, before: (T, T) -> bool)
    requires Ascending(s, before) && forall y :: y in s ==> before(x, y)
    ensures Ascending([x] + s, before)
  {
    var t := [x] + s;
    forall i, j | 0 <= i < j < |t|
      ensures before(t[i], t[j])
    {
      assert t[j] == s[j - 1] && s[j - 1] in s;
      assert i > 0 ==> t[i] == s[i - 1];
    }
  }

  lemma {:induction false} InsertedInOrder<T(!new)>(x: T, s: seq<T>, rows: set<T>, before: (T, T) -> bool)
    requires InOrder(s, rows, before) && x !in rows && Orders(before, rows + {x})
    ensures InOrder(Inserted(x, s, before), rows + {x}, before) && |Inserted(x, s, before)| == |s| + 1
    decreases |s|
  {
    FewerOrders(before, rows + {x}, rows);
    if s == [] {
    } else {
      FirstIsLeast(s, rows, before);
      if before(x, s[0]) {
        forall y | y in s
          ensures before(x, y)
        {
          assert y in rows && (y == s[0] || before(s[0], y));
        }
        AscendingCons(x, s, before);
      } else {
        var rest := rows - {s[0]};
        FewerOrders(before, rows + {x}, rest + {x});
        InsertedInOrder(x, s[1..], rest, before);
        AscendingCons(s[0], Inserted(x, s[1..], before), before);
      }
    }
  }

  function Elements<T(==)>(s: seq<T>): set<T> {
    set x | x in s
  }

  /** Sorting a list without repetitions puts its elements in order. */
  lemma {:induction false} SortedInOrder<T(!new)>(s: seq<T>, before: (T, T) -> bool)
    requires Once(s) && Orders(before, Elements(s))
    ensures InOrder(Sorted(s, before), Elements(s), before) && |Sorted(s, before)| == |s|
    decreases |s|
  {
    if s == [] {
    } else {
      var rest := s[1..];
      assert s == [s[0]] + rest;
      assert Elements(s) == Elements(rest) + {s[0]};
      assert s[0] !in rest;
      FewerOrders(before, Elements(s), Elements(rest));
      SortedInOrder(rest, before);
      InsertedInOrder(s[0], Sorted(rest, before), Elements(rest), before);
    }
  }

  lemma {:induction false} SomeList<T(!new)>(rows: set<T>) returns (s: seq<T>)
    ensures Once(s) && Elements(s) == rows
    decreases |rows|
  {
    if rows == {} {
      s := [];
    } else {
      var x :| x in rows;
      var rest := SomeList(rows - {x});
      s := rest + [x];
      assert x !in Elements(rest);
      assert Elements(s) == Elements(rest) + {x};
    }
  }

  lemma OrderExists<T(!new)>(rows: set<T>, before: (T, T) -> bool)
    requires Orders(before, rows)
    ensures exists list :: InOrder(list, rows, before)
  {
    var s := SomeList(rows);
    SortedInOrder(s, before);
  }

  /** The one list of some rows in order. */
  ghost function Listed<T(!new)>(rows: set<T>, before: (T, T) -> bool): (list: seq<T>)
    requires Orders(before, rows)
    ensures InOrder(list, rows, before)
  {
    OrderExists(rows, before);
    var list :| InOrder(list, rows, before);
    list
  }

  /** Rows listed by a key of theirs are the rows of the listed keys. */
  lemma ListedByKey<K(!new), R(!new)>(m: map<K, R>, keys: set<K>, ks: seq<K>, kb: (K, K) -> bool,
                                      rows: set<R>, list: seq<R>, rb: (R, R) -> bool)
    requires InOrder(ks, keys, kb) && InOrder(list, rows, rb) && Orders(rb, rows)
    requires forall k :: k in keys ==> k in m && m[k] in rows
    requires forall x :: x in rows ==> exists k :: k in keys && m[k] == x
    requires forall j, k :: j in keys && k in keys && kb(j, k) ==> rb(m[j], m[k])
    ensures |list| == |ks| && forall i :: 0 <= i < |ks| ==> ks[i] in m && list[i] == m[ks[i]]
  {
    assert forall i :: 0 <= i < |ks| ==> ks[i] in ks;
    var other := seq(|ks|, i requires 0 <= i < |ks| => m[ks[i]]);
    forall x
      ensures x in other <==> x in rows
    {
      if x in rows {
        var k :| k in keys && m[k] == x;
        var i :| 0 <= i < |ks| && ks[i] == k;
        assert other[i] == x;
      }
    }
    OneOrder(list, other, rows, rb);
  }

  // ------------------------------------------------------------------ a loop over a map, and a sort

  function Rows<K, R>(m: map<K, R>, wanted: R -> bool): set<R> {
    set k | k in m && wanted(m[k]) :: m[k]
  }

  /** Collects the rows that are wanted, visiting the map in any order, and sorts them. */
  method SortedRows<K(!new, ==), R(!new, ==)>(m: map<K, R>, wanted: R -> bool,
                                              before: (R, R) -> bool) returns (list: seq<R>)
    requires forall j, k :: j in m && k in m && m[j] == m[k] ==> j == k
    requires Orders(before, Rows(m, wanted))
    ensures InOrder(list, Rows(m, wanted), before)
  {
    var out: seq<R> := [];
    var todo := m.Keys;
    while todo != {}
      invariant todo <= m.Keys && Once(out)
      invariant forall x :: x in out <==> Visited(m, wanted, todo, x)
      decreases |todo|
    {
      var k :| k in todo;
      VisitOne(m, wanted, todo, k);
      todo := todo - {k};
      if wanted(m[k]) {
        out := out + [m[k]];
      }
    }
    assert Elements(out) == Rows(m, wanted);
    SortedInOrder(out, before);
    list := Sorted(out, before);
  }

  ghost predicate Visited<K(!new), R>(m: map<K, R>, wanted: R -> bool, todo: set<K>, x: R) {
    exists k :: k in m && k !in todo && wanted(m[k]) && m[k] == x
  }

  lemma VisitOne<K(!new), R(!new)>(m: map<K, R>, wanted: R -> bool, todo: set<K>, k: K)
    requires k in m && k in todo && forall j, k :: j in m && k in m && m[j] == m[k] ==> j == k
    ensures !Visited(m, wanted, todo, m[k])
    ensures forall x :: Visited(m, wanted, todo - {k}, x) <==>
              Visited(m, wanted, todo, x) || (wanted(m[k]) && x == m[k])
  {
  }
}
