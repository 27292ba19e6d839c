/** Keeping the newest few of a set of names, where a name that sorts later is newer. */
module Retention {
  import opened Text
  import Listings

  function Newer(names: set<string>, n: string): set<string> {
    set m | m in names && Lt(n, m)
  }

  /** The names that fewer than keep others are newer than. */
  function Kept(names: set<string>, keep: nat): set<string> {
    set n | n in names && |Newer(names, n)| < keep
  }

  lemma {:induction false} Subset<T>(a: set<T>, b: set<T>)
    requires a <= b
    ensures |a| <= |b| && (|a| == |b| ==> a == b)
  {
    if a != {} {
      var x :| x in a;
      Subset(a - {x}, b - {x});
      assert b == (b - {x}) + {x} && a == (a - {x}) + {x};
    }
  }

  /** The oldest name. */
  lemma {:induction false} Oldest(names: set<string>) returns (n: string)
    requires names != {}
    ensures n in names && forall m :: m in names && m != n ==> Lt(n, m)
  {
    hide Lt;
    var x :| x in names;
    if names == {x} {
      n := x;
    } else {
      var y := Oldest(names - {x});
      LtTotal(x, y);
      n := if Lt(x, y) then x else y;
      forall m | m in names && m != n
        ensures Lt(n, m)
      {
        if Lt(x, y) && m != y {
          LtTransitive(x, y, m);
        }
      }
    }
  }

  /** Taking the oldest name out costs no other name its rank, and the oldest has all others before it. */
  lemma OldestRank(names: set<string>, oldest: string, n: string)
    requires oldest in names && (forall m :: m in names && m != oldest ==> Lt(oldest, m)) && n in names
    ensures n != oldest ==> Newer(names - {oldest}, n) == Newer(names, n)
    ensures n == oldest ==> |Newer(names, n)| == |names| - 1
  {
    hide Lt;
    LtTotal(oldest, oldest);
    if n == oldest {
      assert Newer(names, n) == names - {oldest};
    } else {
      LtTotal(oldest, n);
      assert !Lt(n, oldest);
    }
  }

  /** So many are kept: as many as asked for, or all. */
  lemma {:induction false} KeptCounts(names: set<string>, keep: nat)
    ensures |Kept(names, keep)| == if |names| <= keep then |names| else keep
    ensures |names| <= keep ==> Kept(names, keep) == names
    decreases |names|
  {
    hide Lt, Newer;
    if names == {} {
      assert Kept(names, keep) == {};
    } else {
      var oldest := Oldest(names);
      var rest := names - {oldest};
      KeptCounts(rest, keep);
      KeptWithOldest(names, oldest, keep);
    }
  }

  lemma KeptWithOldest(names: set<string>, oldest: string, keep: nat)
    requires oldest in names && forall m :: m in names && m != oldest ==> Lt(oldest, m)
    ensures Kept(names, keep) == Kept(names - {oldest}, keep) + (if |names| <= keep then {oldest} else {})
  {
    hide Lt, Newer;
    forall n | n in names
      ensures n in Kept(names, keep) <==> n in Kept(names - {oldest}, keep) + (if |names| <= keep then {oldest} else {})
    {
      OldestRank(names, oldest, n);
    }
  }

  /** What is kept is newer than what is not. */
  lemma KeptIsNewer(names: set<string>, keep: nat, m: string, n: string)
    requires m in Kept(names, keep) && n in names && n !in Kept(names, keep)
    ensures Lt(n, m)
  {
    hide Lt;
    LtTotal(m, n);
    if Lt(m, n) {
      forall x | x in Newer(names, n)
        ensures x in Newer(names, m)
      {
        LtTransitive(m, n, x);
      }
      Subset(Newer(names, n), Newer(names, m));
    }
  }

  /** Pruning again, or pruning what an earlier pruning left over, keeps the same names. */
  lemma KeptOfKept(names: set<string>, some: set<string>, keep: nat)
    requires Kept(names, keep) <= some <= names
    ensures Kept(some, keep) == Kept(names, keep)
  {
    hide Lt;
    forall n | n in names
      ensures n in Kept(some, keep) <==> n in Kept(names, keep)
    {
      Subset(Newer(some, n), Newer(names, n));
      if n !in Kept(names, keep) {
        forall m | m in Kept(names, keep)
          ensures m in Newer(some, n)
        {
          KeptIsNewer(names, keep, m, n);
        }
        KeptCounts(names, keep);
        Subset(Kept(names, keep), Newer(some, n));
        Subset(Newer(names, n), names);
      }
    }
  }

  /** A name added later on: keeping the newest of everything is keeping the newest of what was kept and the new one. */
  lemma KeptIncrementally(names: set<string>, keep: nat, x: string)
    ensures Kept(names + {x}, keep) <= Kept(names, keep) + {x}
    ensures Kept(Kept(names, keep) + {x}, keep) == Kept(names + {x}, keep)
  {
    hide Lt;
    forall n | n in Kept(names + {x}, keep)
      ensures n in Kept(names, keep) + {x}
    {
      Subset(Newer(names, n), Newer(names + {x}, n));
    }
    KeptOfKept(names + {x}, Kept(names, keep) + {x}, keep);
  }

  // ------------------------------------------------------------------ newest first

  predicate Descending(s: seq<string>) {
    forall i, j :: 0 <= i < j < |s| ==> Lt(s[j], s[i])
  }

  predicate NewerFirst(a: string, b: string) {
    Lt(b, a)
  }

  function NewestFirst(s: seq<string>): seq<string> {
    Listings.Sorted(s, NewerFirst)
  }

  lemma NamesAreOrdered(names: set<string>)
    ensures Listings.Orders(NewerFirst, names)
  {
    hide Lt;
    forall a, b | a in names && b in names
      ensures !NewerFirst(a, a) && (a != b ==> NewerFirst(a, b) || NewerFirst(b, a))
    {
      LtTotal(a, b);
    }
    forall a, b, c | a in names && b in names && c in names && NewerFirst(a, b) && NewerFirst(b, c)
      ensures NewerFirst(a, c)
    {
      LtTransitive(c, b, a);
    }
  }

  lemma NewestFirstDescends(s: seq<string>)
    requires Listings.Once(s)
    ensures Descending(NewestFirst(s)) && |NewestFirst(s)| == |s|
    ensures forall x :: x in NewestFirst(s) <==> x in s
  {
    hide Lt;
    NamesAreOrdered(Listings.Elements(s));
    Listings.SortedInOrder(s, NewerFirst);
    var t := NewestFirst(s);
    forall i, j | 0 <= i < j < |t|
      ensures Lt(t[j], t[i])
    {
      assert NewerFirst(t[i], t[j]);
    }
  }

  /** In a list sorted newest first, as many names are newer as stand before. */
  lemma {:induction false} RankIsPosition(s: seq<string>, names: set<string>, i: nat)
    requires Descending(s) && i < |s| && forall x :: x in names <==> x in s
    ensures |Newer(names, s[i])| == i
    decreases i
  {
    hide Lt;
    forall j | 0 <= j < |s|
      ensures Lt(s[i], s[j]) <==> j < i
    {
      LtTotal(s[i], s[j]);
    }
    if i == 0 {
      assert Newer(names, s[i]) == {};
    } else {
      RankIsPosition(s, names, i - 1);
      forall j | 0 <= j < |s|
        ensures Lt(s[i - 1], s[j]) <==> j < i - 1
      {
        LtTotal(s[i - 1], s[j]);
      }
      forall x | x in names
        ensures x in Newer(names, s[i]) <==> x in Newer(names, s[i - 1]) + {s[i - 1]}
      {
        var j :| 0 <= j < |s| && s[j] == x;
      }
      assert Newer(names, s[i]) == Newer(names, s[i - 1]) + {s[i - 1]};
    }
  }

  /** So what is kept is the front of the list. */
  lemma KeptIsFront(s: seq<string>, names: set<string>, keep: nat, i: nat)
    requires Descending(s) && i < |s| && forall x :: x in names <==> x in s
    ensures s[i] in Kept(names, keep) <==> i < keep
  {
    hide Lt;
    RankIsPosition(s, names, i);
    assert s[i] in names;
  }
}
