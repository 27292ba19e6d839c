/** What cleaning a path does, segment by segment, and what that makes the containment check accept. */
module PathLaws {
  import opened Text
  import opened SanitizeLaws
  import opened Paths
  import opened Schema

  // ------------------------------------------------------------------ the rules of cleaning

  lemma {:induction false} CleanOntoAppend(base: seq<string>, a: seq<string>, b: seq<string>)
    ensures CleanOnto(base, a + b) == CleanOnto(CleanOnto(base, a), b)
    decreases |a|
  {
    if a == [] {
      assert a + b == b;
    } else {
      assert a + b == [a[0]] + (a[1..] + b) && a == [a[0]] + a[1..];
      assert (a + b)[1..] == a[1..] + b;
      CleanOntoAppend(CleanOnto(base, [a[0]]), a[1..], b);
      OneSegment(base, a[0]);
    }
  }

  /** One segment: nothing, a step up, which at the file-system root leads nowhere, or a step down. */
  lemma OneSegment(base: seq<string>, s: string)
    ensures s == "" || s == "." ==> CleanOnto(base, [s]) == base
    ensures s == ".." && base != [] ==> CleanOnto(base, [s]) == base[..|base| - 1]
    ensures s == ".." && base == [] ==> CleanOnto(base, [s]) == []
    ensures s != "" && s != "." && s != ".." ==> CleanOnto(base, [s]) == base + [s]
  {
    assert [s][1..] == [];
  }

  /**
   * Anywhere in a path: an empty segment and a single dot do nothing, and a name followed by ".." cancels. At the
   * start ".." takes off the last segment of the base, and at the file-system root it does nothing.
   */
  lemma CleaningRules(base: seq<string>, a: seq<string>, b: seq<string>, s: string)
    ensures CleanOnto(base, a + [""] + b) == CleanOnto(base, a + b)
    ensures CleanOnto(base, a + ["."] + b) == CleanOnto(base, a + b)
    ensures s != "" && s != "." && s != ".." ==> CleanOnto(base, a + [s, ".."] + b) == CleanOnto(base, a + b)
    ensures CleanOnto(base + [s], [".."] + b) == CleanOnto(base, b)
    ensures CleanOnto([], [".."] + b) == CleanOnto([], b)
    ensures CleanOnto(base, []) == base
  {
    hide CleanOnto;
    var c := CleanOnto(base, a);
    CleanOntoAppend(base, a, b);
    Nothing(base, a, b, "");
    Nothing(base, a, b, ".");
    if s != "" && s != "." && s != ".." {
      Cancels(base, a, b, s);
    }
    CleanOntoAppend(base + [s], [".."], b);
    CleanOntoAppend([], [".."], b);
    OneSegment(base + [s], "..");
    OneSegment([], "..");
    CleanOntoEmpty(base);
    assert (base + [s])[..|base|] == base;
  }

  lemma Nothing(base: seq<string>, a: seq<string>, b: seq<string>, s: string)
    requires s == "" || s == "."
    ensures CleanOnto(base, a + [s] + b) == CleanOnto(base, a + b)
  {
    hide CleanOnto;
    CleanOntoAppend(base, a, b);
    CleanOntoAppend(base, a + [s], b);
    CleanOntoAppend(base, a, [s]);
    OneSegment(CleanOnto(base, a), s);
  }

  lemma Cancels(base: seq<string>, a: seq<string>, b: seq<string>, s: string)
    requires s != "" && s != "." && s != ".."
    ensures CleanOnto(base, a + [s, ".."] + b) == CleanOnto(base, a + b)
  {
    hide CleanOnto;
    var c := CleanOnto(base, a);
    CleanOntoAppend(base, a, b);
    CleanOntoAppend(base, a + [s, ".."], b);
    CleanOntoAppend(base, a, [s, ".."]);
    CleanOntoAppend(c, [s], [".."]);
    OneSegment(c, s);
    OneSegment(c + [s], "..");
    assert [s] + [".."] == [s, ".."] && (c + [s])[..|c|] == c;
  }

  // ------------------------------------------------------------------ acceptance by a walk

  /** How deep below its start a walk along some segments ends; negative if above. */
  function Depth(segments: seq<string>): int {
    if segments == [] then 0
    else
      var s := segments[|segments| - 1];
      Depth(segments[..|segments| - 1]) + if s == ".." then -1 else if s == "" || s == "." then 0 else 1
  }

  /** How far up a walk climbs, and the names it then stands on below that point. */
  datatype Walk = Walk(ups: nat, names: seq<string>)

  function Walked(segments: seq<string>): Walk {
    if segments == [] then Walk(0, [])
    else
      var w, s := Walked(segments[..|segments| - 1]), segments[|segments| - 1];
      if s == "" || s == "." then w
      else if s != ".." then w.(names := w.names + [s])
      else if w.names == [] then w.(ups := w.ups + 1)
      else w.(names := w.names[..|w.names| - 1])
  }

  /** What is left of the root after some steps up. */
  function Above(root: seq<string>, ups: nat): seq<string> {
    if ups >= |root| then [] else root[..|root| - ups]
  }

  lemma {:induction false} CleanOntoWalks(root: seq<string>, segments: seq<string>)
    ensures CleanOnto(root, segments) == Above(root, Walked(segments).ups) + Walked(segments).names
  {
    hide CleanOnto, Above;
    if segments == [] {
      CleanOntoEmpty(root);
      assert Above(root, 0) + [] == root by { StepsAbove(root, 0); }
    } else {
      var k := |segments| - 1;
      var w, s := Walked(segments[..k]), segments[k];
      CleanOntoWalks(root, segments[..k]);
      assert segments == segments[..k] + [s];
      CleanOntoAppend(root, segments[..k], [s]);
      var at := Above(root, w.ups) + w.names;
      OneSegment(at, s);
      StepsAbove(root, w.ups);
      assert w.names != [] ==> at[..|at| - 1] == Above(root, w.ups) + w.names[..|w.names| - 1];
      assert w.names == [] ==> at == Above(root, w.ups);
      assert at + [s] == Above(root, w.ups) + (w.names + [s]);
    }
  }

  lemma StepsAbove(root: seq<string>, ups: nat)
    ensures Above(root, 0) == root
    ensures Above(root, ups + 1) == if Above(root, ups) == [] then [] else Above(root, ups)[..|Above(root, ups)| - 1]
  {
  }

  lemma {:induction false} WalkDepth(segments: seq<string>)
    ensures |Walked(segments).names| - Walked(segments).ups == Depth(segments)
    ensures forall k :: 0 <= k <= |segments| ==> Depth(segments[..k]) + Walked(segments).ups >= 0
    ensures exists k :: 0 <= k <= |segments| && Depth(segments[..k]) + Walked(segments).ups == 0
  {
    var n := |segments|;
    assert segments[..n] == segments;
    if segments != [] {
      var front := segments[..n - 1];
      WalkDepth(front);
      assert forall k :: 0 <= k <= n - 1 ==> front[..k] == segments[..k];
      var k :| 0 <= k <= n - 1 && Depth(front[..k]) + Walked(front).ups == 0;
      if Walked(segments).ups == Walked(front).ups {
        assert Depth(segments[..k]) + Walked(segments).ups == 0;
      } else {
        assert Depth(segments[..n]) + Walked(segments).ups == 0;
      }
      forall j | 0 <= j <= n
        ensures Depth(segments[..j]) + Walked(segments).ups >= 0
      {
        if j < n {
          assert front[..j] == segments[..j];
        }
      }
    } else {
      assert segments[..0] == [];
    }
  }

  /**
   * The check, by a walk along the segments. A walk that never climbs above the root is accepted exactly when it
   * ends below it. One that climbs is accepted exactly when it comes back down by the root's own names, and goes on.
   */
  lemma SafeAbsByWalk(root: seq<string>, rel: string)
    requires CleanPath(root)
    requires rel != "" && rel[0] != '/' && rel[0] != '\\'
    ensures var segments := Split(rel, '/');
            var w := Walked(segments);
            var m := if w.ups <= |root| then w.ups else |root|;
            && (SafeAbs(root, rel).Some? <==> |w.names| > m && w.names[..m] == root[|root| - m..])
            && (SafeAbs(root, rel).Some? ==> SafeAbs(root, rel).value == root + w.names[m..])
            && ((forall k :: 0 <= k <= |segments| ==> Depth(segments[..k]) >= 0) ==>
                  (SafeAbs(root, rel).Some? <==> Depth(segments) > 0))
  {
    hide Split, SafeAbs, CleanPath, CleanOnto, JoinAbs, Walked, Depth;
    var segments := Split(rel, '/');
    var w := Walked(segments);
    var m := if w.ups <= |root| then w.ups else |root|;
    SafeAbsIsContainment(root, rel);
    CleanOntoWalks(root, segments);
    WalkDepth(segments);
    BackDown(root, w.names, m);
    assert Above(root, w.ups) == root[..|root| - m];
  }

  /** Some steps up from the root, names lead below it again exactly when they start with the ones that were left. */
  lemma BackDown(root: seq<string>, names: seq<string>, m: nat)
    requires m <= |root|
    ensures root < root[..|root| - m] + names <==> |names| > m && names[..m] == root[|root| - m..]
    ensures |names| > m && names[..m] == root[|root| - m..] ==>
              root[..|root| - m] + names == root + names[m..]
  {
    var abs := root[..|root| - m] + names;
    assert root == root[..|root| - m] + root[|root| - m..];
    if |names| > m && names[..m] == root[|root| - m..] {
      assert names == names[..m] + names[m..];
    }
    if root < abs {
      assert abs[..|root|] == root;
      assert abs[|root| - m..|root|] == names[..m];
    }
  }

  /** What one step up, and a step down and up again, make of a path of names. */
  lemma StepsThenNames(root: seq<string>, names: seq<string>)
    requires root != [] && forall s :: s in names ==> Component(s)
    ensures CleanOnto(root, names) == root + names
    ensures CleanOnto(root, [".."] + names) == root[..|root| - 1] + names
    ensures CleanOnto(root, ["x"] + ([".."] + names)) == root + names
    ensures CleanOnto(root, ["x"] + ([".."] + ([".."] + names))) == root[..|root| - 1] + names
  {
    var top, below := root[..|root| - 1], root + ["x"];
    OneSegment(root, "..");
    OneSegment(root, "x");
    OneSegment(below, "..");
    assert below[..|below| - 1] == root && names + [] == names;
    hide CleanOnto;
    CleanOntoKeeps(root, names, []);
    CleanOntoKeeps(top, names, []);
    CleanOntoEmpty(root + names);
    CleanOntoEmpty(top + names);
    CleanOntoAppend(root, [".."], names);
    CleanOntoAppend(below, [".."], names);
    CleanOntoAppend(below, [".."], [".."] + names);
    CleanOntoAppend(root, ["x"], [".."] + names);
    CleanOntoAppend(root, ["x"], [".."] + ([".."] + names));
  }

  lemma CleanOntoEmpty(base: seq<string>)
    ensures CleanOnto(base, []) == base
  {
  }

  lemma StepsSplit(rel: string)
    ensures Split("../" + rel, '/') == [".."] + Split(rel, '/')
    ensures Split("x/../" + rel, '/') == ["x"] + ([".."] + Split(rel, '/'))
    ensures Split("x/../../" + rel, '/') == ["x"] + ([".."] + ([".."] + Split(rel, '/')))
  {
    hide Split;
    var once, twice := "../" + rel, "../../" + rel;
    SplitFirst("..", rel, '/');
    SplitFirst("..", once, '/');
    SplitFirst("x", once, '/');
    SplitFirst("x", twice, '/');
    assert ".." + ['/'] + rel == once && ".." + ['/'] + once == twice;
    assert "x" + ['/'] + once == "x/../" + rel && "x" + ['/'] + twice == "x/../../" + rel;
  }

  lemma NoNameFirst(rel: string)
    requires rel != "" && rel[0] == '/'
    ensures "" in Split(rel, '/')
  {
    assert Split(rel, '/')[0] == "";
  }

  /**
   * A path that climbs out of the root and goes on by names leads back in only by the root's own last name, whether
   * it climbs at once or after a step down; a step down and up again leads nowhere else.
   */
  lemma ClimbingOut(root: seq<string>, rel: string)
    requires CleanPath(root) && root != [] && rel != ""
    requires forall s :: s in Split(rel, '/') ==> s != "" && s != "." && s != ".."
    ensures var names := Split(rel, '/');
            && (SafeAbs(root, "../" + rel).Some? <==> |names| > 1 && names[0] == root[|root| - 1])
            && (SafeAbs(root, "x/../../" + rel).Some? <==> |names| > 1 && names[0] == root[|root| - 1])
            && SafeAbs(root, "x/../" + rel) == Some(root + names)
            && (SafeAbs(root, rel) == if rel[0] == '\\' then None else Some(root + names))
  {
    hide Split, SafeAbs, CleanOnto, JoinAbs, CleanPath;
    var names, top := Split(rel, '/'), root[..|root| - 1];
    assert forall s :: s in names ==> Component(s);
    if rel[0] == '/' {
      NoNameFirst(rel);
      assert false;
    }
    StepsSplit(rel);
    StepsThenNames(root, names);
    SafeAbsIsContainment(root, rel);
    SafeAbsIsContainment(root, "../" + rel);
    SafeAbsIsContainment(root, "x/../" + rel);
    SafeAbsIsContainment(root, "x/../../" + rel);
    assert root < root + names;
    BackIn(root, names);
  }

  lemma BackIn(root: seq<string>, names: seq<string>)
    requires root != [] && names != []
    ensures root < root[..|root| - 1] + names <==> |names| > 1 && names[0] == root[|root| - 1]
  {
    var there := root[..|root| - 1] + names;
    if root < there {
      assert there[..|root|] == root && there[|root| - 1] == names[0];
    }
    if |names| > 1 && names[0] == root[|root| - 1] {
      assert there[..|root|] == root;
    }
  }

  /** Nothing but steps back is never accepted. */
  lemma StepsUpAlone(root: seq<string>)
    requires CleanPath(root)
    ensures SafeAbs(root, "..") == None && SafeAbs(root, "x/..") == None && SafeAbs(root, ".") == None
  {
    hide Split, SafeAbs, CleanOnto, JoinAbs;
    SplitNone(".", '/');
    SplitNone("..", '/');
    SplitFirst("x", "..", '/');
    assert "x" + ['/'] + ".." == "x/.." && ["x"] + [".."] == ["x", ".."];
    SafeAbsIsContainment(root, ".");
    SafeAbsIsContainment(root, "..");
    SafeAbsIsContainment(root, "x/..");
    OneSegment(root, ".");
    OneSegment(root, "..");
    OneSegment(root, "x");
    OneSegment(root + ["x"], "..");
    CleanOntoAppend(root, ["x"], [".."]);
    assert (root + ["x"])[..|root|] == root;
  }
}
