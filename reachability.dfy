/** Reachability over a snapshot of the heap's reference graph. The mark phase
    never changes a reference, so its effect is stated against a pure map from
    each object to the references it holds. */
module Reachability {
  import opened Objects

  /** Each object of the universe mapped to the references it holds. */
  type Graph = map<Obj, seq<Obj?>>

  /** The graph of the objects in `u`, as they are in the current heap. */
  ghost function GraphOf(u: set<Obj>): (g: Graph)
    reads u`head, u`tail, u`objects, set x | x in u :: x.objects
    ensures g.Keys == u
  {
    map x | x in u :: x.Children()
  }

  /** Every non-null reference held by an object of the graph is in the graph. */
  ghost predicate Closed(g: Graph)
  {
    forall x, i :: x in g && 0 <= i < |g[x]| && g[x][i] != null ==> g[x][i] in g
  }

  /** The graph of `u` is as it was when no reference held by an object of
      `u` has been reassigned. */
  twostate lemma GraphOfUnchanged(u: set<Obj>)
    requires forall x :: x in u ==> old(allocated(x)) && unchanged(x`head, x`tail, x`objects)
    requires forall x :: x in u ==> unchanged(x.objects)
    ensures GraphOf(u) == old(GraphOf(u))
  {
  }

  /** A universe in which every object holds only references into the
      universe has a closed graph. */
  lemma ClosedFromHolds(u: set<Obj>)
    requires forall x :: x in u ==> x.HoldsOnly(u)
    ensures Closed(GraphOf(u))
  {
    forall x, i | x in u && 0 <= i < |x.Children()| && x.Children()[i] != null
      ensures x.Children()[i] in u
    {
      assert x.HoldsOnly(u);
    }
  }

  /** Conversely, a part `m` of the universe that the graph of `u` keeps
      closed consists of objects that hold only references into `m`. */
  lemma HoldsFromClosed(u: set<Obj>, m: set<Obj>)
    requires m <= u && ClosedUnder(GraphOf(u), m)
    ensures forall x :: x in m ==> x.HoldsOnly(m)
  {
    forall x, y | x in m && y in x.Children() && y != null ensures y in m {
      var k :| 0 <= k < |x.Children()| && x.Children()[k] == y;
      assert GraphOf(u)[x][k] == y;
    }
  }

  /** Every non-null reference held by a member of `m` is in `m`. */
  ghost predicate ClosedUnder(g: Graph, m: set<Obj>)
  {
    forall x, i :: x in m && x in g && 0 <= i < |g[x]| && g[x][i] != null ==> g[x][i] in m
  }

  /** `p` is a non-empty chain of references of `g` that visits no member of `avoid`. */
  ghost predicate IsPath(g: Graph, older p: seq<Obj>, avoid: set<Obj>)
  {
    |p| > 0 &&
    (forall i :: 0 <= i < |p| ==> p[i] in g && p[i] !in avoid) &&
    (forall i :: 0 <= i < |p| - 1 ==> p[i + 1] in g[p[i]])
  }

  /** `y` can be reached from `x` without passing through `avoid`. */
  ghost predicate Reaches(g: Graph, x: Obj, y: Obj, avoid: set<Obj>)
  {
    exists p :: IsPath(g, p, avoid) && p[0] == x && p[|p| - 1] == y
  }

  /** The objects reachable from some non-null root without passing through
      `avoid`. This is what one depth-first marking pass sets when the objects
      of `avoid` are the ones already marked. */
  ghost function ReachSet(g: Graph, roots: seq<Obj?>, avoid: set<Obj>): set<Obj>
  {
    set y | y in g && exists i :: 0 <= i < |roots| && roots[i] != null && Reaches(g, roots[i], y, avoid)
  }

  /** The objects reachable from the roots through zero or more references. */
  ghost function Reachable(g: Graph, roots: seq<Obj?>): set<Obj>
  {
    ReachSet(g, roots, {})
  }

  /** The index of the last occurrence of `o` in `p`, or -1. */
  function LastIndexOf(p: seq<Obj>, o: Obj): (k: int)
    ensures -1 <= k < |p|
    ensures k >= 0 ==> p[k] == o
    ensures forall j :: k < j < |p| ==> p[j] != o
    ensures o in p ==> k >= 0
  {
    if |p| == 0 then -1
    else if p[|p| - 1] == o then |p| - 1
    else LastIndexOf(p[..|p| - 1], o)
  }

  lemma PathSuffix(g: Graph, p: seq<Obj>, k: int, avoid: set<Obj>)
    requires IsPath(g, p, avoid) && 0 <= k < |p|
    ensures IsPath(g, p[k..], avoid)
  {
    var q := p[k..];
    forall i | 0 <= i < |q| - 1 ensures q[i + 1] in g[q[i]] {
      assert q[i] == p[k + i] && q[i + 1] == p[k + i + 1];
    }
  }

  lemma PathConcat(g: Graph, p: seq<Obj>, q: seq<Obj>, avoid: set<Obj>)
    requires IsPath(g, p, avoid) && IsPath(g, q, avoid) && p[|p| - 1] == q[0]
    ensures IsPath(g, p + q[1..], avoid)
    ensures (p + q[1..])[0] == p[0] && (p + q[1..])[|p + q[1..]| - 1] == q[|q| - 1]
  {
    var r := p + q[1..];
    forall i | 0 <= i < |r| ensures r[i] in g && r[i] !in avoid {
      if i >= |p| { assert r[i] == q[i - |p| + 1]; }
    }
    forall i | 0 <= i < |r| - 1 ensures r[i + 1] in g[r[i]] {
      if i < |p| - 1 {
      } else if i == |p| - 1 {
        assert r[i] == q[0] && r[i + 1] == q[1];
      } else {
        assert r[i] == q[i - |p| + 1] && r[i + 1] == q[i - |p| + 2];
      }
    }
  }

  /** A path that avoids a set also avoids each of its subsets. */
  lemma PathWeaken(g: Graph, p: seq<Obj>, a: set<Obj>, b: set<Obj>)
    requires IsPath(g, p, b) && a <= b
    ensures IsPath(g, p, a)
  {
  }

  /** Nothing is reached from a root that is itself avoided. */
  lemma {:induction false} ReachFromAvoided(g: Graph, o: Obj, avoid: set<Obj>)
    requires o in avoid
    ensures ReachSet(g, [o], avoid) == {}
  {
  }

  /** What is reached from a child of `o` while avoiding `o` is reached from `o`. */
  lemma ReachViaChild(g: Graph, o: Obj, avoid: set<Obj>, y: Obj)
    requires o in g && o !in avoid && y in ReachSet(g, g[o], avoid + {o})
    ensures y in ReachSet(g, [o], avoid)
  {
    var i :| 0 <= i < |g[o]| && g[o][i] != null && Reaches(g, g[o][i], y, avoid + {o});
    var p :| IsPath(g, p, avoid + {o}) && p[0] == g[o][i] && p[|p| - 1] == y;
    PathWeaken(g, p, avoid, avoid + {o});
    assert IsPath(g, [o, p[0]], avoid);
    PathConcat(g, [o, p[0]], p, avoid);
    assert Reaches(g, [o][0], y, avoid);
  }

  /** Anything other than `o` reached from `o` is reached from one of its
      children along a path that does not come back to `o`. */
  lemma ReachFromChild(g: Graph, o: Obj, avoid: set<Obj>, y: Obj)
    requires o in g && o !in avoid && y in ReachSet(g, [o], avoid) && y != o
    ensures y in ReachSet(g, g[o], avoid + {o})
  {
    var p :| IsPath(g, p, avoid) && p[0] == o && p[|p| - 1] == y;
    var k := LastIndexOf(p, o);
    assert k >= 0 && k < |p| - 1;
    PathSuffix(g, p, k + 1, avoid);
    var q := p[k + 1..];
    assert IsPath(g, q, avoid + {o}) by {
      forall j | 0 <= j < |q| ensures q[j] != o { assert q[j] == p[k + 1 + j]; }
    }
    assert q[0] in g[o] by { assert p[k] == o; }
    var i :| 0 <= i < |g[o]| && g[o][i] == q[0];
    assert Reaches(g, g[o][i], y, avoid + {o});
  }

  /** Marking `o` and then everything reachable from its children without
      passing through what is marked so far is the same as marking everything
      reachable from `o`. */
  lemma {:induction false} ReachUnfold(g: Graph, o: Obj, avoid: set<Obj>, a: set<Obj>, m: set<Obj>)
    requires o in g && o !in avoid
    requires a == avoid + {o} && m == a + ReachSet(g, g[o], a)
    ensures m == avoid + ReachSet(g, [o], avoid)
  {
    assert IsPath(g, [o], avoid);
    assert Reaches(g, o, o, avoid) by { assert [o][0] == o; }
    forall y | y in ReachSet(g, g[o], avoid + {o}) ensures y in ReachSet(g, [o], avoid) {
      ReachViaChild(g, o, avoid, y);
    }
    forall y | y in ReachSet(g, [o], avoid) && y != o ensures y in ReachSet(g, g[o], avoid + {o}) {
      ReachFromChild(g, o, avoid, y);
    }
  }

  /** Marking from the roots `s` and then from `c`, each pass skipping what is
      already marked, marks the same objects as one pass from `s + [c]`. This
      is why the order of the depth-first visits does not matter. */
  lemma {:induction false} ReachExtend(g: Graph, a: set<Obj>, s: seq<Obj?>, c: Obj?, b: set<Obj>, b': set<Obj>)
    requires b == a + ReachSet(g, s, a)
    requires b' == b + ReachSet(g, [c], b)
    ensures b' == a + ReachSet(g, s + [c], a)
  {
    var sc := s + [c];
    forall y | y in ReachSet(g, s, a) ensures y in ReachSet(g, sc, a) {
      var i :| 0 <= i < |s| && s[i] != null && Reaches(g, s[i], y, a);
      assert sc[i] == s[i];
    }
    forall y | y in ReachSet(g, [c], b) ensures y in ReachSet(g, sc, a) {
      var p :| IsPath(g, p, b) && p[0] == c && p[|p| - 1] == y;
      PathWeaken(g, p, a, b);
      assert sc[|s|] == c;
    }
    forall y | y in ReachSet(g, sc, a) && y !in b ensures y in ReachSet(g, [c], b) {
      var i :| 0 <= i < |sc| && sc[i] != null && Reaches(g, sc[i], y, a);
      if i < |s| {
        assert false;
      }
      var p :| IsPath(g, p, a) && p[0] == c && p[|p| - 1] == y;
      if k :| 0 <= k < |p| && p[k] in b {
        var j :| 0 <= j < |s| && s[j] != null && Reaches(g, s[j], p[k], a);
        var q :| IsPath(g, q, a) && q[0] == s[j] && q[|q| - 1] == p[k];
        PathSuffix(g, p, k, a);
        PathConcat(g, q, p[k..], a);
        assert false;
      }
      assert IsPath(g, p, b);
    }
  }

  /** Once a path enters a set closed under references, it stays inside. */
  lemma {:induction false} StaysInside(g: Graph, m: set<Obj>, p: seq<Obj>, k: int)
    requires ClosedUnder(g, m) && IsPath(g, p, {}) && 0 <= k < |p| && p[k] in m
    ensures p[|p| - 1] in m
    decreases |p| - k
  {
    if k < |p| - 1 {
      PathStep(g, p, {}, k);
      var i :| 0 <= i < |g[p[k]]| && g[p[k]][i] == p[k + 1];
      StaysInside(g, m, p, k + 1);
    }
  }

  /** When the already-marked objects are closed under references, a marking
      pass that skips them ends with exactly those objects plus everything
      reachable from the roots. */
  lemma {:induction false} ReachClosedMarks(g: Graph, m: set<Obj>, roots: seq<Obj?>)
    requires ClosedUnder(g, m)
    ensures m + ReachSet(g, roots, m) == m + Reachable(g, roots)
  {
    forall y | y in ReachSet(g, roots, m) ensures y in Reachable(g, roots) {
      var i :| 0 <= i < |roots| && roots[i] != null && Reaches(g, roots[i], y, m);
      var p :| IsPath(g, p, m) && p[0] == roots[i] && p[|p| - 1] == y;
      PathWeaken(g, p, {}, m);
      assert Reaches(g, roots[i], y, {});
    }
    forall y | y in Reachable(g, roots) && y !in m ensures y in ReachSet(g, roots, m) {
      var i :| 0 <= i < |roots| && roots[i] != null && Reaches(g, roots[i], y, {});
      var p :| IsPath(g, p, {}) && p[0] == roots[i] && p[|p| - 1] == y;
      if k :| 0 <= k < |p| && p[k] in m {
        StaysInside(g, m, p, k);
        assert false;
      }
      assert IsPath(g, p, m);
      assert Reaches(g, roots[i], y, m);
    }
  }

  /** Every non-null root of the graph that is not avoided is reached. */
  lemma RootReachable(g: Graph, roots: seq<Obj?>, avoid: set<Obj>, i: int)
    requires 0 <= i < |roots| && roots[i] != null && roots[i] in g && roots[i] !in avoid
    ensures roots[i] in ReachSet(g, roots, avoid)
  {
    assert IsPath(g, [roots[i]], avoid);
    assert Reaches(g, roots[i], roots[i], avoid) by { assert [roots[i]][0] == roots[i]; }
  }

  /** In a closed graph, whatever a reachable object refers to is reachable. */
  lemma ReachableClosed(g: Graph, roots: seq<Obj?>)
    requires Closed(g)
    ensures ClosedUnder(g, Reachable(g, roots))
  {
    forall x, k | x in Reachable(g, roots) && x in g && 0 <= k < |g[x]| && g[x][k] != null
      ensures g[x][k] in Reachable(g, roots)
    {
      var c := g[x][k];
      var i :| 0 <= i < |roots| && roots[i] != null && Reaches(g, roots[i], x, {});
      var p :| IsPath(g, p, {}) && p[0] == roots[i] && p[|p| - 1] == x;
      assert IsPath(g, [x, c], {});
      PathConcat(g, p, [x, c], {});
      assert Reaches(g, roots[i], c, {});
    }
  }

  /** The graph `g` cut down to the objects of `s`. */
  ghost function Restrict(g: Graph, s: set<Obj>): (h: Graph)
    ensures h.Keys == g.Keys * s
    ensures forall x :: x in h ==> h[x] == g[x]
  {
    map x | x in g && x in s :: g[x]
  }

  /** The graph of part of a universe is the universe's graph cut down to it. */
  lemma GraphOfRestrict(u: set<Obj>, s: set<Obj>)
    requires s <= u
    ensures GraphOf(s) == Restrict(GraphOf(u), s)
  {
  }

  /** Every object on a path from a root is reachable, so cutting the graph
      down to the reachable objects loses none of them; and a path of the
      cut-down graph is a path of the whole graph, so it gains none either. */
  lemma ReachRestrict(g: Graph, roots: seq<Obj?>)
    ensures Reachable(Restrict(g, Reachable(g, roots)), roots) == Reachable(g, roots)
  {
    var r := Reachable(g, roots);
    var h := Restrict(g, r);
    forall y | y in r ensures y in Reachable(h, roots) {
      var i :| 0 <= i < |roots| && roots[i] != null && Reaches(g, roots[i], y, {});
      var p :| IsPath(g, p, {}) && p[0] == roots[i] && p[|p| - 1] == y;
      forall j | 0 <= j < |p| ensures p[j] in r {
        assert IsPath(g, p[..j + 1], {});
        assert Reaches(g, roots[i], p[..j + 1][j], {});
      }
      assert IsPath(h, p, {});
      assert Reaches(h, roots[i], y, {});
    }
    forall y | y in Reachable(h, roots) ensures y in r {
      var i :| 0 <= i < |roots| && roots[i] != null && Reaches(h, roots[i], y, {});
      var p :| IsPath(h, p, {}) && p[0] == roots[i] && p[|p| - 1] == y;
      assert IsPath(g, p, {});
      assert Reaches(g, roots[i], y, {});
    }
  }

  /** Each step of a path follows a reference. */
  lemma PathStep(g: Graph, p: seq<Obj>, avoid: set<Obj>, k: int)
    requires IsPath(g, p, avoid) && 0 <= k < |p| - 1
    ensures p[k] in g && p[k + 1] in g[p[k]]
  {
  }

  /** Roots that hold no references reach only themselves. */
  lemma ReachLeaves(g: Graph, roots: seq<Obj?>, avoid: set<Obj>)
    requires forall i :: 0 <= i < |roots| && roots[i] != null && roots[i] in g ==> g[roots[i]] == []
    ensures forall y :: y in ReachSet(g, roots, avoid) ==> y in roots
  {
    forall y | y in ReachSet(g, roots, avoid) ensures y in roots {
      var i :| 0 <= i < |roots| && roots[i] != null && Reaches(g, roots[i], y, avoid);
      var p :| IsPath(g, p, avoid) && p[0] == roots[i] && p[|p| - 1] == y;
      if |p| > 1 {
        PathStep(g, p, avoid, 0);
        assert false;
      }
    }
  }
}
