/** Sums and maxima over finite sets, in whatever order the elements are visited. */
module Folds {

  ghost function Sum<T(!new)>(f: T -> int, s: set<T>): int {
    if s == {} then 0
    else
      var x :| x in s;
      f(x) + Sum(f, s - {x})
  }

  /** Any element can be taken out first. */
  lemma {:induction false} SumTakes<T(!new)>(f: T -> int, s: set<T>, x: T)
    requires x in s
    ensures Sum(f, s) == f(x) + Sum(f, s - {x})
  {
    var y :| y in s && Sum(f, s) == f(y) + Sum(f, s - {y});
    if y != x {
      SumTakes(f, s - {y}, x);
      SumTakes(f, s - {x}, y);
      assert s - {y} - {x} == s - {x} - {y};
    }
  }

  lemma SumAdds<T(!new)>(f: T -> int, s: set<T>, x: T)
    requires x !in s
    ensures Sum(f, s + {x}) == f(x) + Sum(f, s)
  {
    SumTakes(f, s + {x}, x);
    assert s + {x} - {x} == s;
  }

  lemma {:induction false} SumSame<T(!new)>(f: T -> int, g: T -> int, s: set<T>)
    requires forall x :: x in s ==> f(x) == g(x)
    ensures Sum(f, s) == Sum(g, s)
  {
    if s != {} {
      var x :| x in s;
      SumTakes(f, s, x);
      SumTakes(g, s, x);
      SumSame(f, g, s - {x});
    }
  }

  /** Changing one summand changes the sum by as much. */
  lemma SumChanges<T(!new)>(f: T -> int, g: T -> int, s: set<T>, x: T)
    requires x in s && forall y :: y in s && y != x ==> f(y) == g(y)
    ensures Sum(g, s) == Sum(f, s) - f(x) + g(x)
  {
    SumTakes(f, s, x);
    SumTakes(g, s, x);
    SumSame(f, g, s - {x});
  }

  lemma {:induction false} SumBounded<T(!new)>(f: T -> int, g: T -> int, s: set<T>)
    requires forall x :: x in s ==> f(x) <= g(x)
    ensures Sum(f, s) <= Sum(g, s)
  {
    if s != {} {
      var x :| x in s;
      SumTakes(f, s, x);
      SumTakes(g, s, x);
      SumBounded(f, g, s - {x});
    }
  }

  lemma {:induction false} SumPlus<T(!new)>(f: T -> int, g: T -> int, h: T -> int, s: set<T>)
    requires forall x :: x in s ==> h(x) == f(x) + g(x)
    ensures Sum(h, s) == Sum(f, s) + Sum(g, s)
  {
    if s != {} {
      var x :| x in s;
      SumTakes(f, s, x);
      SumTakes(g, s, x);
      SumTakes(h, s, x);
      SumPlus(f, g, h, s - {x});
    }
  }

  lemma {:induction false} SumConst<T(!new)>(f: T -> int, c: int, s: set<T>)
    requires forall x :: x in s ==> f(x) == c
    ensures Sum(f, s) == c * |s|
  {
    if s != {} {
      var x :| x in s;
      SumTakes(f, s, x);
      SumConst(f, c, s - {x});
      assert |s| == |s - {x}| + 1;
      assert c * |s| == c * |s - {x}| + c;
    }
  }

  ghost function Indicator<T(!new)>(ids: set<T>): T -> int {
    (x: T) => if x in ids then 1 else 0
  }

  /** Summing 1 over the elements that are in ids counts them. */
  lemma {:induction false} SumIndicator<T(!new)>(ids: set<T>, s: set<T>)
    ensures Sum(Indicator(ids), s) == |ids * s|
  {
    if s == {} {
      assert ids * s == {};
    } else {
      var x :| x in s;
      SumTakes(Indicator(ids), s, x);
      SumIndicator(ids, s - {x});
      InterTakes(ids, s, x);
    }
  }

  lemma InterTakes<T>(ids: set<T>, s: set<T>, x: T)
    requires x in s
    ensures |ids * s| == |ids * (s - {x})| + if x in ids then 1 else 0
  {
    if x in ids {
      assert ids * s == (ids * (s - {x})) + {x};
    } else {
      assert ids * s == ids * (s - {x});
    }
  }

  /** The greatest value of f on s. */
  ghost predicate IsMax<T(!new)>(f: T -> int, s: set<T>, m: int) {
    (exists x :: x in s && f(x) == m) && forall x :: x in s ==> f(x) <= m
  }

  lemma {:induction false} MaxExists<T(!new)>(f: T -> int, s: set<T>)
    requires s != {}
    ensures exists m :: IsMax(f, s, m)
  {
    var x :| x in s;
    if s == {x} {
      assert IsMax(f, s, f(x));
    } else {
      MaxExists(f, s - {x});
      var m :| IsMax(f, s - {x}, m);
      var y :| y in s - {x} && f(y) == m;
      assert IsMax(f, s, if f(x) > m then f(x) else m);
    }
  }

  ghost function Max<T(!new)>(f: T -> int, s: set<T>): (m: int)
    requires s != {}
    ensures IsMax(f, s, m)
  {
    MaxExists(f, s);
    var m :| IsMax(f, s, m);
    m
  }

  /** A map to numbers below n that never repeats a value has at most n keys. */
  lemma {:induction false} Pigeonhole<K(!new)>(m: map<K, nat>, n: nat)
    requires forall k :: k in m ==> m[k] < n
    requires forall j, k :: j in m && k in m && m[j] == m[k] ==> j == k
    ensures |m| <= n
    decreases n
  {
    if m != map[] {
      var some :| some in m;
      if exists k :: k in m && m[k] == n - 1 {
        var k :| k in m && m[k] == n - 1;
        Pigeonhole(m - {k}, n - 1);
        assert m - {k} + map[k := m[k]] == m;
        assert m.Keys == (m - {k}).Keys + {k};
        assert |m| == |m.Keys| && |m - {k}| == |(m - {k}).Keys|;
      } else {
        Pigeonhole(m, n - 1);
      }
    }
  }
}
