/** The VM of the mark-and-sweep collector: a bounded root stack, a singly
    linked registry of every allocated object, allocation that registers and
    roots at once, the frame protocol, and the mark and sweep phases. */
module Collector {
  import opened Objects
  import opened Reachability

  /** A node of the registry list. */
  class Node {
    const obj: Obj
    var next: Node?

    constructor (o: Obj)
      ensures this.obj == o && next == null
    {
      this.obj := o;
      next := null;
    }
  }

  /** The objects held by a run of registry nodes, in list order. */
  function Objs(ns: seq<Node>): (r: seq<Obj>)
    ensures |r| == |ns|
  {
    if ns == [] then [] else Objs(ns[..|ns| - 1]) + [ns[|ns| - 1].obj]
  }

  lemma {:induction false} ObjsAt(ns: seq<Node>, i: int)
    requires 0 <= i < |ns|
    ensures Objs(ns)[i] == ns[i].obj
    decreases |ns|
  {
    if i < |ns| - 1 {
      ObjsAt(ns[..|ns| - 1], i);
    }
  }

  /** The marked objects among `u`. */
  ghost function MarkedSet(u: set<Obj>): set<Obj>
    reads u`marked
  {
    set x | x in u && x.marked
  }

  /** The objects of `s` that are in `m`, in their order in `s`: what a sweep
      keeps of the registry after the head node. */
  function Survivors(s: seq<Obj>, m: set<Obj>): (r: seq<Obj>)
    ensures |r| <= |s|
  {
    if s == [] then []
    else Survivors(s[..|s| - 1], m) + (if s[|s| - 1] in m then [s[|s| - 1]] else [])
  }

  /** Sweep keeps exactly the objects of `s` that are in `m`. */
  lemma {:induction false} SurvivorsMembers(s: seq<Obj>, m: set<Obj>)
    ensures forall x :: x in Survivors(s, m) <==> x in s && x in m
  {
    if s != [] {
      SurvivorsMembers(s[..|s| - 1], m);
      assert s == s[..|s| - 1] + [s[|s| - 1]];
    }
  }

  /** A sweep in which every object is marked keeps everything. */
  lemma {:induction false} SurvivorsAll(s: seq<Obj>, m: set<Obj>)
    requires forall x :: x in s ==> x in m
    ensures Survivors(s, m) == s
  {
    if s != [] {
      SurvivorsAll(s[..|s| - 1], m);
      assert s[..|s| - 1] + [s[|s| - 1]] == s;
    }
  }

  /** Two sets that agree on every object of `s` keep the same objects of it. */
  lemma {:induction false} SurvivorsAgree(s: seq<Obj>, a: set<Obj>, b: set<Obj>)
    requires forall x :: x in s ==> (x in a <==> x in b)
    ensures Survivors(s, a) == Survivors(s, b)
  {
    if s != [] {
      assert s[|s| - 1] in s;
      forall x | x in s[..|s| - 1] ensures x in s {
        var k :| 0 <= k < |s| - 1 && s[..|s| - 1][k] == x;
        assert s[k] == x;
      }
      SurvivorsAgree(s[..|s| - 1], a, b);
    }
  }

  predicate IsFrameMarker(o: Obj?)
  {
    o != null && o.objectType == FrameMarker
  }

  /** The index of the topmost frame marker of a stack, or -1 if it has none. */
  function NearestFrame(s: seq<Obj?>): (k: int)
    ensures -1 <= k < |s|
    ensures k >= 0 ==> IsFrameMarker(s[k])
    ensures forall j :: k < j < |s| ==> !IsFrameMarker(s[j])
  {
    if s == [] then -1
    else if IsFrameMarker(s[|s| - 1]) then |s| - 1
    else NearestFrame(s[..|s| - 1])
  }

  /** A frame pushed on top of `s`, followed by any number of allocations that
      are not frame markers, is unwound back to `s` by the next popFrame. */
  lemma FrameBalance(s: seq<Obj?>, marker: Obj, t: seq<Obj?>)
    requires marker.objectType == FrameMarker
    requires forall j :: 0 <= j < |t| ==> !IsFrameMarker(t[j])
    ensures NearestFrame(s + [marker] + t) == |s|
  {
    var u := s + [marker] + t;
    var k := NearestFrame(u);
    assert IsFrameMarker(u[|s|]);
  }

  /** appendObject: links a new node holding `o` after `tail`. */
  method AppendObject(tail: Node, o: Obj) returns (ll: Node)
    modifies tail`next
    ensures fresh(ll) && ll.obj == o && ll.next == null
    ensures tail.next == ll
  {
    ll := new Node(o);
    tail.next := ll;
  }

  /** mark: depth-first marking from `o`. An object already marked is not
      entered again, which is what makes marking stop on cycles. The ghost
      universe `u` holds every object the traversal can meet, and `g` is its
      reference graph, which marking never changes. */
  method Mark(o: Obj?, ghost u: set<Obj>, ghost g: Graph)
    requires g == GraphOf(u) && Closed(g)
    requires o != null ==> o in u
    modifies u`marked
    ensures MarkedSet(u) == old(MarkedSet(u)) + ReachSet(g, [o], old(MarkedSet(u)))
    ensures GraphOf(u) == g
    decreases u - MarkedSet(u), 1
  {
    if o == null {
      assert ReachSet(g, [o], MarkedSet(u)) == {};
      return;
    }
    if o.marked {
      ReachFromAvoided(g, o, MarkedSet(u));
      return;
    }
    ghost var m0 := MarkedSet(u);
    o.marked := true;
    ghost var a := MarkedSet(u);
    assert a == m0 + {o};
    MarkChildren(o, u, g);
    ReachUnfold(g, o, m0, a, MarkedSet(u));
  }

  /** The rest of mark once `o` is flagged: a pair's head and then its tail,
      an array's slots in index order, nothing for the other kinds. */
  method MarkChildren(o: Obj, ghost u: set<Obj>, ghost g: Graph)
    requires g == GraphOf(u) && Closed(g)
    requires o in u && o.marked
    modifies u`marked
    ensures MarkedSet(u) == old(MarkedSet(u)) + ReachSet(g, g[o], old(MarkedSet(u)))
    ensures GraphOf(u) == g
    decreases u - MarkedSet(u), 3
  {
    ghost var a := MarkedSet(u);
    assert g[o] == o.Children();
    ghost var kids := g[o];
    if o.objectType == ReferencePair {
      assert kids == [o.head, o.tail];
      assert kids[0] != null ==> kids[0] in u;
      assert kids[1] != null ==> kids[1] in u;
      Mark(o.head, u, g);
      ghost var m1 := MarkedSet(u);
      assert [kids[0]] + [kids[1]] == kids;
      Mark(o.tail, u, g);
      ReachExtend(g, a, [kids[0]], kids[1], m1, MarkedSet(u));
    } else if o.objectType == Array {
      MarkSlots(o, u, g);
    } else {
      assert kids == [];
      assert ReachSet(g, kids, a) == {};
    }
  }

  /** The array case of mark: every slot, in index order. */
  method MarkSlots(o: Obj, ghost u: set<Obj>, ghost g: Graph)
    requires g == GraphOf(u) && Closed(g)
    requires o in u && o.marked && o.objectType == Array
    modifies u`marked
    ensures MarkedSet(u) == old(MarkedSet(u)) + ReachSet(g, g[o], old(MarkedSet(u)))
    ensures GraphOf(u) == g
    decreases u - MarkedSet(u), 2
  {
    ghost var a := MarkedSet(u);
    ghost var kids := g[o];
    assert kids == o.objects[..];
    assert ReachSet(g, kids[..0], a) == {};
    var i := 0;
    while i < o.objects.Length
      invariant 0 <= i <= o.objects.Length
      invariant MarkedSet(u) == a + ReachSet(g, kids[..i], a)
      invariant GraphOf(u) == g
    {
      ghost var mi := MarkedSet(u);
      assert o.objects[i] == kids[i];
      assert kids[i] != null ==> kids[i] in u;
      Mark(o.objects[i], u, g);
      assert kids[..i] + [kids[i]] == kids[..i + 1];
      ReachExtend(g, a, kids[..i], kids[i], mi, MarkedSet(u));
      i := i + 1;
    }
    assert kids[..o.objects.Length] == kids;
  }

  /** A fresh buffer of `n` reference slots, each set to `fill`: the slot
      loops of newVM (clearing the stack) and newArray (filling the array). */
  method FilledSlots(n: nat, fill: Obj?) returns (a: array<Obj?>)
    ensures fresh(a) && a.Length == n
    ensures forall i :: 0 <= i < n ==> a[i] == fill
  {
    a := new Obj?[n];
    var i := 0;
    while i < n
      invariant 0 <= i <= n
      invariant forall j :: 0 <= j < i ==> a[j] == fill
    {
      a[i] := fill;
      i := i + 1;
    }
  }

  /** An array whose every slot is `fill` holds only references into any
      set that holds `fill`. */
  lemma FilledHolds(o: Obj, fill: Obj?, s: set<Obj>)
    requires o.objectType == Array && forall i :: 0 <= i < o.objects.Length ==> o.objects[i] == fill
    requires fill != null ==> fill in s
    ensures o.HoldsOnly(s)
  {
    forall x | x in o.Children() && x != null ensures x in s {
      var i :| 0 <= i < o.objects.Length && o.objects[i] == x;
    }
  }

  /** Holding only references into a set implies holding only references
      into any larger set. */
  lemma HoldsMore(x: Obj, s: set<Obj>, t: set<Obj>)
    requires x.HoldsOnly(s) && s <= t
    ensures x.HoldsOnly(t)
  {
  }

  /** The objects listed in `s`, as a set. */
  ghost function Members(s: seq<Obj>): set<Obj>
  {
    set x | x in s
  }

  /** The objects held by a run of registry nodes, as a set. */
  ghost function ObjSet(ns: seq<Node>): set<Obj>
  {
    set i | 0 <= i < |ns| :: ns[i].obj
  }

  /** Keeping the objects of `s + [x]` that are in `m` keeps those of `s`,
      then `x` if it is in `m`. */
  lemma SurvivorsSnoc(s: seq<Obj>, x: Obj, m: set<Obj>)
    ensures Survivors(s + [x], m) == Survivors(s, m) + (if x in m then [x] else [])
  {
    assert (s + [x])[..|s|] == s;
  }

  /** Each node of `ns` links to the one after it, and the last to nothing:
      `ns` is the whole list from its first node. */
  ghost predicate Chain(ns: seq<Node>)
    reads ns`next
  {
    forall j {:trigger ns[j].next} :: 0 <= j < |ns| ==> ns[j].next == (if j + 1 < |ns| then ns[j + 1] else null)
  }

  /** Sweep keeps a node whose object is marked: the kept objects grow by it. */
  lemma KeepObjs(kept: seq<Node>, n: Node, f: Obj, os: seq<Obj>, i: int, m: set<Obj>)
    requires 1 <= i < |os| && os[i] == n.obj && n.obj in m
    requires Objs(kept) == [f] + Survivors(os[1..i], m)
    ensures Objs(kept + [n]) == [f] + Survivors(os[1..i + 1], m)
  {
    assert os[1..i + 1] == os[1..i] + [os[i]];
    SurvivorsSnoc(os[1..i], n.obj, m);
    assert (kept + [n])[..|kept|] == kept;
  }

  /** Sweep drops a node whose object is unmarked: the kept objects stay. */
  lemma DropObjs(os: seq<Obj>, i: int, m: set<Obj>)
    requires 1 <= i < |os| && os[i] !in m
    ensures Survivors(os[1..i + 1], m) == Survivors(os[1..i], m)
  {
    assert os[1..i + 1] == os[1..i] + [os[i]];
    SurvivorsSnoc(os[1..i], os[i], m);
  }

  /** The node after `ns[i]` in a chain that ends with `ns[i..]`. */
  lemma ChainNext(live: seq<Node>, kept: seq<Node>, ns: seq<Node>, i: int)
    requires 0 <= i < |ns| && live == kept + ns[i..] && Chain(live)
    ensures ns[i].next == if i + 1 < |ns| then ns[i + 1] else null
  {
    assert live[|kept|] == ns[i];
    assert live[|kept|].next == if |kept| + 1 < |live| then live[|kept| + 1] else null;
  }

  lemma SpliceOut(kept: seq<Node>, ns: seq<Node>, i: int)
    requires 0 <= i < |ns|
    ensures (kept + ns[i..])[..|kept|] + (kept + ns[i..])[|kept| + 1..] == kept + ns[i + 1..]
  {
  }

  lemma KeepOne(kept: seq<Node>, ns: seq<Node>, i: int)
    requires 0 <= i < |ns|
    ensures kept + ns[i..] == (kept + [ns[i]]) + ns[i + 1..]
  {
  }

  /** No two nodes of `ns` hold the same object (so no node occurs twice). */
  predicate DistinctObjs(ns: seq<Node>)
  {
    forall a, b :: 0 <= a < b < |ns| ==> ns[a].obj != ns[b].obj
  }

  /** Dropping a node keeps the objects of the others distinct. */
  lemma DistinctObjsDrop(ns: seq<Node>, k: int)
    requires 0 <= k < |ns| && DistinctObjs(ns)
    ensures DistinctObjs(ns[..k] + ns[k + 1..])
  {
    var r := ns[..k] + ns[k + 1..];
    forall a, c | 0 <= a < c < |r| ensures r[a].obj != r[c].obj {
      var a' := if a < k then a else a + 1;
      var c' := if c < k then c else c + 1;
      assert r[a] == ns[a'] && r[c] == ns[c'];
    }
  }

  /** Unlinks the node after `prev`, which is `live[k]`, from the chain `live`. */
  method Unlink(prev: Node, ghost live: seq<Node>, ghost k: int)
    requires 0 < k < |live| && live[k - 1] == prev && Chain(live) && DistinctObjs(live)
    modifies prev`next
    ensures prev.next == old(live[k].next)
    ensures Chain(live[..k] + live[k + 1..])
  {
    prev.next := prev.next.next;
    var r := live[..k] + live[k + 1..];
    forall j | 0 <= j < |r| ensures r[j].next == (if j + 1 < |r| then r[j + 1] else null) {
      if j < k - 1 {
        assert r[j] == live[j] && r[j + 1] == live[j + 1] && live[j] != prev;
        assert old(live[j].next) == live[j + 1];
      } else if j == k - 1 {
        assert r[j] == prev;
        assert old(live[k].next) == if k + 1 < |live| then live[k + 1] else null;
        assert j + 1 < |r| ==> r[j + 1] == live[k + 1];
      } else {
        assert r[j] == live[j + 1] && live[j + 1] != prev;
        assert old(live[j + 1].next) == if j + 2 < |live| then live[j + 2] else null;
        assert j + 1 < |r| ==> r[j + 1] == live[j + 2];
      }
    }
    assert Chain(r);
  }

  /** The bookkeeping of a sweep that has examined the nodes before `ns[i]`:
      `kept` are the nodes it kept, `live` the nodes still linked, and `done`
      the objects of the examined nodes. */
  ghost predicate SweepState(ns: seq<Node>, objs: set<Obj>, os: seq<Obj>, m: set<Obj>, kept: seq<Node>, live: seq<Node>, i: int, done: set<Obj>)
  {
    os == Objs(ns) && DistinctObjs(ns) && 1 <= i <= |ns| &&
    (forall j :: 0 <= j < |ns| ==> ns[j].obj in objs) &&
    |kept| >= 1 && kept[0] == ns[0] && live == kept + ns[i..] && DistinctObjs(live) &&
    Objs(kept) == [os[0]] + Survivors(os[1..i], m) &&
    (forall j :: 1 <= j < |kept| ==> kept[j] in ns[1..]) &&
    (forall j :: 0 <= j < |ns| ==> (ns[j].obj in done <==> 1 <= j < i))
  }

  /** The bookkeeping when sweep unlinks `ns[i]`. */
  lemma DropState(ns: seq<Node>, objs: set<Obj>, os: seq<Obj>, m: set<Obj>, kept: seq<Node>, live: seq<Node>, i: int, done: set<Obj>)
    requires SweepState(ns, objs, os, m, kept, live, i, done) && i < |ns| && ns[i].obj !in m
    ensures SweepState(ns, objs, os, m, kept, live[..|kept|] + live[|kept| + 1..], i + 1, done + {ns[i].obj})
  {
    ObjsAt(ns, i);
    DropObjs(os, i, m);
    DistinctObjsDrop(live, |kept|);
    SpliceOut(kept, ns, i);
  }

  /** The bookkeeping when sweep keeps `ns[i]`. */
  lemma KeepState(ns: seq<Node>, objs: set<Obj>, os: seq<Obj>, m: set<Obj>, kept: seq<Node>, live: seq<Node>, i: int, done: set<Obj>)
    requires SweepState(ns, objs, os, m, kept, live, i, done) && i < |ns| && ns[i].obj in m
    ensures SweepState(ns, objs, os, m, kept + [ns[i]], live, i + 1, done + {ns[i].obj})
  {
    ObjsAt(ns, i);
    KeepObjs(kept, ns[i], os[0], os, i, m);
    KeepOne(kept, ns, i);
    assert ns[1..][i - 1] == ns[i];
  }

  /** The bookkeeping once sweep has examined every node. */
  lemma SweepDone(ns: seq<Node>, objs: set<Obj>, os: seq<Obj>, m: set<Obj>, kept: seq<Node>, live: seq<Node>, i: int, done: set<Obj>)
    requires SweepState(ns, objs, os, m, kept, live, i, done) && i == |ns|
    ensures live == kept && DistinctObjs(kept)
    ensures Objs(kept) == [ns[0].obj] + Survivors(os[1..], m)
    ensures forall j :: 1 <= j < |ns| ==> ns[j].obj in done
  {
    assert os[1..i] == os[1..];
    assert live == kept;
    ObjsAt(ns, 0);
  }

  /** A sweep that has examined the nodes before `ns[i]`: `prev` is the last
      node kept, `current` the next to examine, the kept and unexamined nodes
      form the chain `live`, and the marks of examined objects are cleared. */
  ghost predicate Sweeping(ns: seq<Node>, objs: set<Obj>, os: seq<Obj>, m: set<Obj>, prev: Node, current: Node?,
                           kept: seq<Node>, live: seq<Node>, i: int, done: set<Obj>)
    reads live`next, objs`marked
  {
    SweepState(ns, objs, os, m, kept, live, i, done) &&
    current == (if i < |ns| then ns[i] else null) &&
    prev == kept[|kept| - 1] &&
    Chain(live) &&
    (forall x :: x in objs ==> (x.marked <==> x in m && x !in done))
  }

  /** One sweep step on an unmarked node: unlink it. */
  method DropStep(prev: Node, ghost ns: seq<Node>, ghost objs: set<Obj>, ghost os: seq<Obj>, ghost m: set<Obj>,
                  ghost kept: seq<Node>, ghost live: seq<Node>, ghost i: int, ghost done: set<Obj>)
    returns (next: Node?)
    requires 1 <= i < |ns| && Sweeping(ns, objs, os, m, prev, ns[i], kept, live, i, done) && !ns[i].obj.marked
    modifies prev`next
    ensures Sweeping(ns, objs, os, m, prev, next, kept, live[..|kept|] + live[|kept| + 1..], i + 1, done + {ns[i].obj})
  {
    ChainNext(live, kept, ns, i);
    assert ns[i].obj !in done;
    DropState(ns, objs, os, m, kept, live, i, done);
    Unlink(prev, live, |kept|);
    next := prev.next;
  }

  /** One sweep step on a marked node: keep it and clear the mark. */
  method KeepStep(current: Node, ghost ns: seq<Node>, ghost objs: set<Obj>, ghost os: seq<Obj>, ghost m: set<Obj>,
                  ghost prev: Node, ghost kept: seq<Node>, ghost live: seq<Node>, ghost i: int, ghost done: set<Obj>)
    requires 1 <= i < |ns| && current == ns[i] && Sweeping(ns, objs, os, m, prev, current, kept, live, i, done)
    requires current.obj.marked
    modifies current.obj`marked
    ensures Sweeping(ns, objs, os, m, current, current.next, kept + [current], live, i + 1, done + {ns[i].obj})
  {
    ChainNext(live, kept, ns, i);
    assert ns[i].obj !in done;
    KeepState(ns, objs, os, m, kept, live, i, done);
    current.obj.marked := false;
  }

  /** One iteration of the sweep loop: unlink `current` if its object is
      unmarked, otherwise keep it, clear the mark and advance `prev`. */
  method SweepStep(prev: Node, current: Node, ghost ns: seq<Node>, ghost objs: set<Obj>, ghost os: seq<Obj>,
                   ghost m: set<Obj>, ghost kept: seq<Node>, ghost live: seq<Node>, ghost i: int, ghost done: set<Obj>)
    returns (prev': Node, current': Node?, ghost kept': seq<Node>, ghost live': seq<Node>, ghost i': int, ghost done': set<Obj>)
    requires Sweeping(ns, objs, os, m, prev, current, kept, live, i, done) && prev in ns
    modifies prev`next, current.obj`marked
    ensures Sweeping(ns, objs, os, m, prev', current', kept', live', i', done') && prev' in ns
    ensures i' == i + 1
  {
    if !current.obj.marked {
      current' := DropStep(prev, ns, objs, os, m, kept, live, i, done);
      prev', kept', live' := prev, kept, live[..|kept|] + live[|kept| + 1..];
    } else {
      KeepStep(current, ns, objs, os, m, prev, kept, live, i, done);
      prev', current', kept', live' := current, current.next, kept + [current], live;
    }
    done' := done + {ns[i].obj};
    i' := i + 1;
  }

  /** sweep's `prev`/`current` loop over the list from `first`: unmarked
      nodes are unlinked, marked ones kept with their mark cleared, and the
      final `prev`, the last node kept, is returned. */
  method SweepList(first: Node, ghost ns: seq<Node>, ghost objs: set<Obj>)
    returns (last: Node, ghost kept: seq<Node>)
    requires |ns| >= 1 && ns[0] == first && Chain(ns) && DistinctObjs(ns)
    requires forall j :: 0 <= j < |ns| ==> ns[j].obj in objs
    modifies ns`next, objs`marked
    ensures |kept| >= 1 && kept[0] == first && last == kept[|kept| - 1]
    ensures forall j :: 1 <= j < |kept| ==> kept[j] in ns[1..]
    ensures Chain(kept) && DistinctObjs(kept)
    ensures Objs(kept) == [first.obj] + Survivors(Objs(ns)[1..], old(MarkedSet(objs)))
    ensures forall j :: 1 <= j < |ns| ==> !ns[j].obj.marked
    ensures first.obj.marked == old(first.obj.marked)
  {
    ghost var m := MarkedSet(objs);
    ghost var os := Objs(ns);
    var prev: Node := first;
    var current := first.next;
    ghost var i := 1;
    ghost var done: set<Obj> := {};
    kept := [first];
    ghost var live := ns;
    assert live[0] == first;
    ObjsAt(ns, 0);
    while current != null
      invariant Sweeping(ns, objs, os, m, prev, current, kept, live, i, done) && prev in ns
      decreases |ns| - i
    {
      prev, current, kept, live, i, done := SweepStep(prev, current, ns, objs, os, m, kept, live, i, done);
    }
    last := prev;
    SweepDone(ns, objs, os, m, kept, live, i, done);
  }

  /** The sweep loop from `first` together with what the kept list inherits
      from the list it came from: the properties of the old nodes after the
      head node, membership, and the fate of the old last node. */
  method SweepFrom(first: Node, ghost ns: seq<Node>, ghost objs: set<Obj>)
    returns (last: Node, ghost kept: seq<Node>)
    requires |ns| >= 1 && ns[0] == first && Chain(ns) && DistinctObjs(ns)
    requires forall j :: 0 <= j < |ns| ==> ns[j].obj in objs
    requires forall j :: 1 <= j < |ns| ==> ns[j].obj.objectType != StartOfStack
    modifies ns`next, objs`marked
    ensures |kept| >= 1 && kept[0] == first && last == kept[|kept| - 1]
    ensures Chain(kept) && DistinctObjs(kept)
    ensures Objs(kept) == [first.obj] + Survivors(Objs(ns)[1..], old(MarkedSet(objs)))
    ensures forall j :: 1 <= j < |kept| ==> !kept[j].obj.marked && kept[j].obj.objectType != StartOfStack
    ensures first.obj.marked == old(first.obj.marked)
    ensures forall n :: n in kept ==> n in ns
    ensures last == ns[|ns| - 1] <==> (ns[|ns| - 1] == first || ns[|ns| - 1].obj in old(MarkedSet(objs)))
    ensures last != ns[|ns| - 1] ==> ns[|ns| - 1] !in kept
  {
    ghost var m := MarkedSet(objs);
    last, kept := SweepList(first, ns, objs);
    KeptFrom(ns, kept);
    KeptNodes(ns, kept);
    LastKept(ns, kept, m);
    assert |ns| == 1 <==> ns[|ns| - 1] == first;
  }

  /** markAll's loop: marks from each of the first `n` slots of `roots`,
      bottom to top. */
  method MarkRoots(roots: array<Obj?>, n: int, ghost u: set<Obj>, ghost g: Graph)
    requires 0 <= n <= roots.Length
    requires g == GraphOf(u) && Closed(g)
    requires forall i :: 0 <= i < n && roots[i] != null ==> roots[i] in u
    modifies u`marked
    ensures MarkedSet(u) == old(MarkedSet(u)) + ReachSet(g, roots[..n], old(MarkedSet(u)))
    ensures GraphOf(u) == g
  {
    ghost var m0 := MarkedSet(u);
    assert ReachSet(g, roots[..0], m0) == {};
    var i := 0;
    while i < n
      invariant 0 <= i <= n
      invariant GraphOf(u) == g
      invariant MarkedSet(u) == m0 + ReachSet(g, roots[..i], m0)
    {
      ghost var mi := MarkedSet(u);
      Mark(roots[i], u, g);
      assert roots[..i] + [roots[i]] == roots[..i + 1];
      ReachExtend(g, m0, roots[..i], roots[i], mi, MarkedSet(u));
      i := i + 1;
    }
  }

  /** The nodes kept by sweep after the head node come from the nodes after
      the head node, so they share the properties of those. */
  lemma KeptFrom(ns: seq<Node>, kept: seq<Node>)
    requires |ns| >= 1
    requires forall j :: 1 <= j < |kept| ==> kept[j] in ns[1..]
    requires forall j :: 1 <= j < |ns| ==> !ns[j].obj.marked && ns[j].obj.objectType != StartOfStack
    ensures forall j :: 1 <= j < |kept| ==> !kept[j].obj.marked && kept[j].obj.objectType != StartOfStack
  {
    forall j | 1 <= j < |kept| ensures !kept[j].obj.marked && kept[j].obj.objectType != StartOfStack {
      var k :| 0 <= k < |ns[1..]| && ns[1..][k] == kept[j];
      assert ns[k + 1] == kept[j];
    }
  }

  /** Sweep keeps only nodes that were in the list. */
  lemma KeptNodes(ns: seq<Node>, kept: seq<Node>)
    requires |ns| >= 1 && |kept| >= 1 && kept[0] == ns[0]
    requires forall j :: 1 <= j < |kept| ==> kept[j] in ns[1..]
    ensures forall n :: n in kept ==> n in ns
  {
    forall n | n in kept ensures n in ns {
      var j :| 0 <= j < |kept| && kept[j] == n;
      if j > 0 {
        var k :| 0 <= k < |ns[1..]| && ns[1..][k] == n;
        assert ns[k + 1] == n;
      }
    }
  }

  /** After sweep, the old last node is still the last one exactly when its
      object survived (or it is the head node); otherwise it is not in the
      list at all. */
  lemma LastKept(ns: seq<Node>, kept: seq<Node>, m: set<Obj>)
    requires |ns| >= 1 && |kept| >= 1 && kept[0] == ns[0] && DistinctObjs(ns)
    requires forall j :: 1 <= j < |kept| ==> kept[j] in ns[1..]
    requires Objs(kept) == [ns[0].obj] + Survivors(Objs(ns)[1..], m)
    ensures kept[|kept| - 1] == ns[|ns| - 1] <==> (|ns| == 1 || ns[|ns| - 1].obj in m)
    ensures ns[|ns| - 1] in kept ==> kept[|kept| - 1] == ns[|ns| - 1]
  {
    var n := |ns|;
    var t := ns[n - 1];
    var s := Objs(ns)[1..];
    if n == 1 {
      assert s == [];
      assert |Objs(kept)| == 1;
    } else {
      ObjsAt(ns, n - 1);
      var s' := s[..|s| - 1];
      assert s == s' + [t.obj];
      assert Survivors(s, m) == Survivors(s', m) + (if t.obj in m then [t.obj] else []);
      if t.obj in m {
        var k := |kept| - 1;
        assert Objs(kept)[k] == t.obj;
        ObjsAt(kept, k);
        assert k >= 1;
        assert kept[k] in ns[1..];
        var j :| 1 <= j < n && ns[j] == kept[k];
      } else {
        SurvivorsMembers(s', m);
        forall j | 0 <= j < |kept| ensures kept[j] != t {
          if j >= 1 {
            ObjsAt(kept, j);
            assert Objs(kept)[j] in Survivors(s', m);
          }
        }
      }
    }
  }

  /** The VM: the root stack and the registry of all objects. */
  class VM {
    const stack: array<Obj?>
    var stackSize: int
    const head: Node
    var tail: Node
    /** The registry's nodes in list order, from `head`. */
    ghost var nodes: seq<Node>

    /** The registry's objects in list order; the first is the StartOfStack sentinel. */
    ghost function Registry(): seq<Obj>
      reads this`nodes
    {
      Objs(nodes)
    }

    ghost function RegisteredSet(): set<Obj>
      reads this`nodes
    {
      ObjSet(nodes)
    }

    /** The root stack: `MAX_STACK_SIZE` slots, the sentinel at the bottom,
        and a live entry in every slot below `stackSize`. */
    ghost predicate StackOk()
      reads this`stackSize, stack
    {
      stack.Length == MAX_STACK_SIZE &&
      1 <= stackSize < MAX_STACK_SIZE &&
      stack[0] == head.obj &&
      forall i :: 1 <= i < stackSize ==> stack[i] != null && stack[i].objectType != StartOfStack
    }

    /** The registry is a null-terminated list from `head` through `nodes`,
        holding each object once, the sentinel first and only there. */
    ghost predicate Linked()
      reads this`nodes, nodes`next
    {
      |nodes| >= 1 && nodes[0] == head && Chain(nodes) && DistinctObjs(nodes) &&
      head.obj.objectType == StartOfStack &&
      (forall i :: 1 <= i < |nodes| ==> nodes[i].obj.objectType != StartOfStack)
    }

    /** What mark and sweep rely on: a well-formed stack and registry list.
        `tail` plays no part; only appending an object reads it. */
    ghost predicate Sound()
      reads this`stackSize, this`nodes, stack, nodes`next
    {
      StackOk() && Linked()
    }

    /** Whether `n` is the last node of the registry. */
    ghost predicate EndsAt(n: Node)
      reads this`nodes
    {
      |nodes| >= 1 && n == nodes[|nodes| - 1]
    }

    /** The VM invariant, with `tail` the last node of the registry. */
    ghost predicate Valid()
      reads this`stackSize, this`nodes, this`tail, stack, nodes`next
    {
      StackOk() && Linked() && tail == nodes[|nodes| - 1]
    }

    ghost function Roots(): seq<Obj?>
      reads this`stackSize, stack
      requires StackOk()
    {
      stack[..stackSize]
    }

    /** The reference graph of the registered objects. */
    ghost function RefGraph(): Graph
      reads this`nodes, RegisteredSet()`head, RegisteredSet()`tail, RegisteredSet()`objects, set x | x in RegisteredSet() :: x.objects
    {
      GraphOf(RegisteredSet())
    }

    /** Every root and every reference held by a registered object is itself
        registered: no root or slot refers to an object that was swept. No
        array object's slots are the root stack itself. */
    ghost predicate Consistent()
      reads this`stackSize, this`nodes, stack, RegisteredSet()`head, RegisteredSet()`tail, RegisteredSet()`objects, set x | x in RegisteredSet() :: x.objects
      requires StackOk()
    {
      (forall i :: 0 <= i < stackSize ==> stack[i] in RegisteredSet()) &&
      (forall x :: x in RegisteredSet() ==> x.HoldsOnly(RegisteredSet()) && x.objects != stack)
    }

    /** Between collections no registered object is marked, except possibly
        the sentinel, whose flag is never initialised and never cleared. */
    ghost predicate Quiescent()
      reads this`nodes, RegisteredSet()`marked
    {
      forall i :: 1 <= i < |nodes| ==> !nodes[i].obj.marked
    }

    /** Every registered object is reachable from the root stack. */
    ghost predicate AllReachable()
      reads this`stackSize, this`nodes, stack, RegisteredSet()`head, RegisteredSet()`tail, RegisteredSet()`objects, set x | x in RegisteredSet() :: x.objects
      requires StackOk()
    {
      RegisteredSet() <= Reachable(RefGraph(), Roots())
    }

    /** newVM: a stack holding only a fresh StartOfStack object, and a
        registry of one node holding that same object. The sentinel's mark is
        never initialised, so it is whatever `sentinelMark` says. */
    constructor (sentinelMark: bool)
      ensures Valid() && Consistent() && Quiescent()
      ensures stackSize == 1 && Registry() == [stack[0]]
      ensures stack[0] != null && stack[0].objectType == StartOfStack && stack[0].marked == sentinelMark
      ensures forall i :: 1 <= i < MAX_STACK_SIZE ==> stack[i] == null
      ensures fresh(stack) && fresh(head) && fresh(stack[0]) && nodes == [head]
    {
      var s := FilledSlots(MAX_STACK_SIZE, null);
      var o := new Obj(StartOfStack);
      o.marked := sentinelMark;
      var ll := new Node(o);
      s[0] := o;
      stack := s;
      stackSize := 1;
      head := ll;
      tail := ll;
      nodes := [ll];
      new;
      SentinelOnly(o);
    }

    /** A VM whose only object is the sentinel, which holds no references,
        is consistent. */
    lemma SentinelOnly(o: Obj)
      requires StackOk() && stackSize == 1 && stack[0] == o
      requires |nodes| == 1 && nodes[0].obj == o
      requires o.Children() == [] && o.objects != stack
      ensures RegisteredSet() == {o}
      ensures Consistent()
    {
      assert RegisteredSet() == {o} by { assert nodes[0].obj == o; }
    }

    /** pushToVM: writes the object above the top of the stack and appends it
        to the registry. The overflow check runs after the write, so the push
        is fatal once `stackSize` would reach `MAX_STACK_SIZE`. */
    method PushToVM(o: Obj)
      requires Valid() && stackSize + 1 < MAX_STACK_SIZE
      requires o !in RegisteredSet() && o.objectType != StartOfStack
      modifies this`stackSize, this`tail, this`nodes, stack, tail`next
      ensures Valid()
      ensures stackSize == old(stackSize) + 1
      ensures stack[..] == old(stack[..])[old(stackSize) := o]
      ensures nodes == old(nodes) + [tail] && tail.obj == o && fresh(tail)
      ensures Registry() == old(Registry()) + [o]
      ensures RegisteredSet() == old(RegisteredSet()) + {o}
    {
      stack[stackSize] := o;
      stackSize := stackSize + 1;
      tail := AppendObject(tail, o);
      nodes := nodes + [tail];
      assert RegisteredSet() == old(RegisteredSet()) + {o} by {
        assert nodes[|nodes| - 1].obj == o;
        assert forall j :: 0 <= j < |nodes| - 1 ==> nodes[j] == old(nodes)[j];
      }
    }

    /** newObject: a fresh, unmarked object of the given kind, pushed on the
        stack and appended to the registry; no registered object changes. */
    method NewObject(objectType: ObjectType) returns (o: Obj)
      requires Valid() && stackSize + 1 < MAX_STACK_SIZE && objectType != StartOfStack
      modifies this`stackSize, this`tail, this`nodes, stack, tail`next
      ensures Valid() && nodes == old(nodes) + [tail] && tail.obj == o && fresh(tail)
      ensures fresh(o) && o.objectType == objectType && !o.marked
      ensures o.head == null && o.tail == null && fresh(o.objects) && o.objects.Length == 0
      ensures stackSize == old(stackSize) + 1
      ensures stack[..] == old(stack[..])[old(stackSize) := o]
      ensures Registry() == old(Registry()) + [o]
      ensures RegisteredSet() == old(RegisteredSet()) + {o}
      ensures old(Consistent()) ==> Consistent()
      ensures old(Quiescent()) ==> Quiescent()
    {
      ghost var u := RegisteredSet();
      ghost var c := Consistent();
      ghost var n := stackSize;
      o := new Obj(objectType);
      PushToVM(o);
      assert forall i :: 0 <= i < |old(nodes)| ==> nodes[i] == old(nodes)[i];
      if c {
        assert forall i :: 0 <= i < n ==> stack[i] == old(stack[i]);
        forall x | x in RegisteredSet() ensures x.HoldsOnly(RegisteredSet()) && x.objects != stack {
          if x != o {
            assert old(x.HoldsOnly(u)) && x.objects != stack;
            HoldsMore(x, u, RegisteredSet());
          }
        }
      }
    }

    /** The VM invariants read only the VM's own fields, the stack, the
        registry nodes, and the marks and references of registered objects.
        With all of these as they were, except possibly the references held
        by `o`, the invariants still hold. */
    twostate lemma Unaffected(o: Obj?)
      requires old(Valid())
      requires unchanged(this) && unchanged(stack) && unchanged(old(nodes))
      requires forall x :: x in old(RegisteredSet()) ==> unchanged(x`marked)
      requires forall x :: x in old(RegisteredSet()) && x != o ==> unchanged(x`head, x`tail, x`objects) && unchanged(x.objects)
      ensures Valid() && RegisteredSet() == old(RegisteredSet()) && Registry() == old(Registry())
      ensures old(Quiescent()) ==> Quiescent()
      ensures o == null && old(Consistent()) ==> Consistent()
      ensures o != null && old(Consistent()) && o.HoldsOnly(RegisteredSet()) && o.objects != stack ==> Consistent()
    {
    }

    /** Marking reads and writes only mark flags, which none of the VM
        invariants, the graph or the roots depend on. */
    twostate lemma OnlyMarksChanged()
      requires old(Sound())
      requires unchanged(this) && unchanged(stack) && unchanged(old(nodes))
      requires forall x :: x in old(RegisteredSet()) ==> unchanged(x`head, x`tail, x`objects) && unchanged(x.objects)
      ensures Sound() && RegisteredSet() == old(RegisteredSet()) && Registry() == old(Registry())
      ensures old(Valid()) ==> Valid()
      ensures RefGraph() == old(RefGraph()) && Roots() == old(Roots())
      ensures old(Consistent()) ==> Consistent()
    {
      GraphOfUnchanged(RegisteredSet());
    }

    /** newInt: a Value object holding `value`. */
    method NewInt(value: int) returns (o: Obj)
      requires Valid() && stackSize + 1 < MAX_STACK_SIZE
      modifies this`stackSize, this`tail, this`nodes, stack, tail`next
      ensures Valid() && nodes == old(nodes) + [tail] && tail.obj == o && fresh(tail)
      ensures fresh(o) && o.objectType == Value && o.value == value && !o.marked
      ensures stackSize == old(stackSize) + 1
      ensures stack[..] == old(stack[..])[old(stackSize) := o]
      ensures Registry() == old(Registry()) + [o] && RegisteredSet() == old(RegisteredSet()) + {o}
      ensures old(Consistent()) ==> Consistent()
      ensures old(Quiescent()) ==> Quiescent()
    {
      o := NewObject(Value);
      label Pushed:
      o.value := value;
      Unaffected@Pushed(null);
    }

    /** newReferencePair: a pair object holding `first` and `second` as its
        head and tail. The VM stays consistent when both are null or
        registered. */
    method NewReferencePair(first: Obj?, second: Obj?) returns (o: Obj)
      requires Valid() && stackSize + 1 < MAX_STACK_SIZE
      modifies this`stackSize, this`tail, this`nodes, stack, tail`next
      ensures Valid() && nodes == old(nodes) + [tail] && tail.obj == o && fresh(tail)
      ensures fresh(o) && o.objectType == ReferencePair && !o.marked
      ensures o.head == first && o.tail == second
      ensures stackSize == old(stackSize) + 1
      ensures stack[..] == old(stack[..])[old(stackSize) := o]
      ensures Registry() == old(Registry()) + [o] && RegisteredSet() == old(RegisteredSet()) + {o}
      ensures (old(Consistent()) && (first != null ==> first in old(RegisteredSet())) &&
               (second != null ==> second in old(RegisteredSet()))) ==> Consistent()
      ensures old(Quiescent()) ==> Quiescent()
    {
      o := NewObject(ReferencePair);
      label Pushed:
      o.head := first;
      o.tail := second;
      Unaffected@Pushed(o);
    }

    /** newFrameMarker: a FrameMarker object; it holds nothing. */
    method NewFrameMarker() returns (o: Obj)
      requires Valid() && stackSize + 1 < MAX_STACK_SIZE
      modifies this`stackSize, this`tail, this`nodes, stack, tail`next
      ensures Valid() && nodes == old(nodes) + [tail] && tail.obj == o && fresh(tail)
      ensures fresh(o) && o.objectType == FrameMarker && !o.marked
      ensures stackSize == old(stackSize) + 1
      ensures stack[..] == old(stack[..])[old(stackSize) := o]
      ensures Registry() == old(Registry()) + [o] && RegisteredSet() == old(RegisteredSet()) + {o}
      ensures old(Consistent()) ==> Consistent()
      ensures old(Quiescent()) ==> Quiescent()
    {
      o := NewObject(FrameMarker);
    }

    /** newArray: an Array object of `size` slots, each set to `fill`. The
        VM stays consistent when `fill` is null or registered. */
    method NewArray(size: nat, fill: Obj?) returns (o: Obj)
      requires Valid() && stackSize + 1 < MAX_STACK_SIZE
      modifies this`stackSize, this`tail, this`nodes, stack, tail`next
      ensures Valid() && nodes == old(nodes) + [tail] && tail.obj == o && fresh(tail)
      ensures fresh(o) && o.objectType == Array && !o.marked
      ensures fresh(o.objects) && o.objects.Length == size
      ensures forall i :: 0 <= i < size ==> o.objects[i] == fill
      ensures stackSize == old(stackSize) + 1
      ensures stack[..] == old(stack[..])[old(stackSize) := o]
      ensures Registry() == old(Registry()) + [o] && RegisteredSet() == old(RegisteredSet()) + {o}
      ensures old(Consistent()) && (fill != null ==> fill in old(RegisteredSet())) ==> Consistent()
      ensures old(Quiescent()) ==> Quiescent()
    {
      o := NewObject(Array);
      label Pushed:
      o.objects := FilledSlots(size, fill);
      if fill == null || fill in old(RegisteredSet()) {
        FilledHolds(o, fill, RegisteredSet());
      }
      Unaffected@Pushed(o);
    }

    /** popFromVM: removes and returns the top of the stack. The underflow
        check runs after the decrement, so popping is fatal unless something
        other than the sentinel is on the stack. */
    method PopFromVM() returns (top: Obj)
      requires Sound() && stackSize >= 2
      modifies this`stackSize
      ensures Sound() && (old(Valid()) ==> Valid())
      ensures stackSize == old(stackSize) - 1 && top == old(stack[stackSize - 1])
      ensures top.objectType != StartOfStack
      ensures Registry() == old(Registry())
      ensures old(Consistent()) ==> Consistent()
      ensures old(Quiescent()) ==> Quiescent()
    {
      stackSize := stackSize - 1;
      top := stack[stackSize];
    }

    /** pushFrame: pushes a fresh frame marker. */
    method PushFrame()
      requires Valid() && stackSize + 1 < MAX_STACK_SIZE
      modifies this`stackSize, this`tail, this`nodes, stack, tail`next
      ensures Valid() && nodes == old(nodes) + [tail] && fresh(tail)
      ensures stackSize == old(stackSize) + 1
      ensures IsFrameMarker(stack[old(stackSize)]) && fresh(stack[old(stackSize)])
      ensures forall i :: 0 <= i < MAX_STACK_SIZE && i != old(stackSize) ==> stack[i] == old(stack[i])
      ensures Registry() == old(Registry()) + [stack[old(stackSize)]]
      ensures old(Consistent()) ==> Consistent()
      ensures old(Quiescent()) ==> Quiescent()
    {
      var _ := NewFrameMarker();
    }

    /** popFrame: pops until it has popped a frame marker, so the stack is cut
        back to just below the topmost marker. Popping the sentinel is fatal,
        so a marker must be on the stack above it. */
    method PopFrame()
      requires Sound() && NearestFrame(stack[..stackSize]) >= 1
      modifies this`stackSize
      ensures Sound() && (old(Valid()) ==> Valid())
      ensures stackSize == old(NearestFrame(stack[..stackSize]))
      ensures Registry() == old(Registry())
      ensures old(Consistent()) ==> Consistent()
      ensures old(Quiescent()) ==> Quiescent()
    {
      ghost var k := NearestFrame(stack[..stackSize]);
      ghost var s := stack[..stackSize];
      while true
        invariant Sound() && (old(Valid()) ==> Valid()) && k < stackSize <= |s|
        invariant forall j :: 0 <= j < stackSize ==> stack[j] == s[j]
        invariant Registry() == old(Registry())
        invariant old(Consistent()) ==> Consistent()
        invariant old(Quiescent()) ==> Quiescent()
        decreases stackSize
      {
        var o := PopFromVM();
        if o.objectType == StartOfStack {
          assert false;
        } else if o.objectType == FrameMarker {
          assert IsFrameMarker(s[stackSize]);
          return;
        }
      }
    }

    /** markAll: marks from every slot of the root stack, bottom to top. What
        it adds to the marks is exactly what is reachable from the roots
        without passing through an object that was already marked. */
    method MarkAll()
      requires Sound() && Consistent()
      modifies RegisteredSet()`marked
      ensures Sound() && Consistent() && (old(Valid()) ==> Valid())
      ensures Registry() == old(Registry())
      ensures forall x: Obj :: x in old(RegisteredSet()) ==> unchanged(x`head, x`tail, x`objects) && unchanged(x.objects)
      ensures MarkedSet(RegisteredSet()) == old(MarkedSet(RegisteredSet()) + ReachSet(RefGraph(), Roots(), MarkedSet(RegisteredSet())))
      ensures old(Quiescent()) ==> MarkedSet(RegisteredSet()) == old(Reachable(RefGraph(), Roots()))
      ensures unchanged(this)
    {
      if Quiescent() {
        QuiescentMarking();
      }
      ghost var u := RegisteredSet();
      ClosedFromHolds(u);
      ghost var g := GraphOf(u);
      ghost var m0 := MarkedSet(u);
      MarkRoots(stack, stackSize, u, g);
      OnlyMarksChanged();
    }

    /** sweep, as written: one pass that unlinks every node after the head
        whose object is unmarked and clears the mark of every node it keeps.
        `last` is where the pass's `prev` ends, the last node kept. The pass
        never updates `tail`, so when the last node is unlinked `tail` is
        left pointing at a node that is no longer in the list. */
    method SweepAsWritten(ghost t: Node) returns (last: Node)
      requires Sound() && t == nodes[|nodes| - 1]
      modifies this`nodes, nodes`next, RegisteredSet()`marked
      ensures Sound() && Quiescent() && EndsAt(last)
      ensures Registry() == [old(Registry())[0]] + Survivors(old(Registry())[1..], old(MarkedSet(RegisteredSet())))
      ensures head.obj.marked == old(head.obj.marked)
      ensures last == t <==> (t == head || t.obj in old(MarkedSet(RegisteredSet())))
      ensures last != t ==> t !in nodes
      ensures forall x: Obj :: x in old(RegisteredSet()) ==> unchanged(x`head, x`tail, x`objects) && unchanged(x.objects)
      ensures forall n :: n in nodes ==> n in old(nodes)
      ensures tail == old(tail)
    {
      ghost var ns := nodes;
      ghost var kept;
      last, kept := SweepFrom(head, nodes, RegisteredSet());
      assert tail == old(tail);
      nodes := kept;
      assert EndsAt(last);
      ObjsAt(ns, 0);
    }

    /** sweep with the registry's `tail` moved to the last node kept, so the
        VM invariant holds afterwards. */
    method Sweep()
      requires Sound()
      modifies this`tail, this`nodes, nodes`next, RegisteredSet()`marked
      ensures Valid() && Quiescent()
      ensures Registry() == [old(Registry())[0]] + Survivors(old(Registry())[1..], old(MarkedSet(RegisteredSet())))
      ensures head.obj.marked == old(head.obj.marked)
      ensures forall x: Obj :: x in old(RegisteredSet()) ==> unchanged(x`head, x`tail, x`objects) && unchanged(x.objects)
      ensures forall n :: n in nodes ==> n in old(nodes)
    {
      var last := SweepAsWritten(nodes[|nodes| - 1]);
      tail := last;
    }

    /** The registry lists every registered object, the sentinel first and
        only there. */
    lemma RegistryObjects()
      requires Sound()
      ensures |Registry()| >= 1 && Registry()[0] == head.obj && head.obj !in Registry()[1..]
      ensures forall x :: x in RegisteredSet() <==> x in Registry()
      ensures RegisteredSet() == Members(Registry())
    {
      ObjsAt(nodes, 0);
      forall x | x in RegisteredSet() ensures x in Registry() {
        var i :| 0 <= i < |nodes| && nodes[i].obj == x;
        ObjsAt(nodes, i);
      }
      forall x | x in Registry() ensures x in RegisteredSet() {
        var i :| 0 <= i < |Registry()| && Registry()[i] == x;
        ObjsAt(nodes, i);
      }
      forall k | 0 <= k < |Registry()| - 1 ensures Registry()[1..][k] != head.obj {
        ObjsAt(nodes, k + 1);
      }
    }

    /** Marking from a quiescent start marks exactly the objects reachable
        from the root stack: the sentinel, the only object that may already
        be marked, is itself a root. */
    lemma QuiescentMarking()
      requires Sound() && Consistent() && Quiescent()
      ensures MarkedSet(RegisteredSet()) + ReachSet(RefGraph(), Roots(), MarkedSet(RegisteredSet())) == Reachable(RefGraph(), Roots())
    {
      QuiescentMarks();
      RegistryObjects();
      ReachClosedMarks(RefGraph(), MarkedSet(RegisteredSet()), Roots());
      RootReachable(RefGraph(), Roots(), {}, 0);
    }

    /** Between collections the marks are closed under references: only the
        sentinel can be marked, and it holds no references. */
    lemma QuiescentMarks()
      requires Sound() && Quiescent()
      ensures MarkedSet(RegisteredSet()) <= {head.obj}
      ensures ClosedUnder(RefGraph(), MarkedSet(RegisteredSet()))
    {
      forall x | x in MarkedSet(RegisteredSet()) ensures x == head.obj {
        var i :| 0 <= i < |nodes| && nodes[i].obj == x;
      }
    }

    /** After a collection that started between collections, the registry
        holds, after the sentinel, exactly the objects that were reachable
        from the root stack, in their old order. */
    lemma CollectedRegistry(reg0: seq<Obj>, u0: set<Obj>, g0: Graph, roots: seq<Obj?>, m0: set<Obj>, marks: set<Obj>)
      requires Sound()
      requires |reg0| >= 1 && reg0[0] == head.obj && head.obj !in reg0[1..]
      requires u0 == Members(reg0)
      requires g0.Keys == u0 && |roots| >= 1 && roots[0] == head.obj
      requires m0 <= {head.obj} && ClosedUnder(g0, m0)
      requires marks == m0 + ReachSet(g0, roots, m0)
      requires Registry() == [reg0[0]] + Survivors(reg0[1..], marks)
      ensures Registry() == [reg0[0]] + Survivors(reg0[1..], Reachable(g0, roots))
      ensures RegisteredSet() == Reachable(g0, roots)
    {
      var r := Reachable(g0, roots);
      ReachClosedMarks(g0, m0, roots);
      assert forall x :: x in reg0[1..] ==> x != head.obj;
      SurvivorsAgree(reg0[1..], marks, r);
      SurvivorsMembers(reg0[1..], r);
      RegistryObjects();
      RootReachable(g0, roots, {}, 0);
      assert reg0 == [reg0[0]] + reg0[1..];
      assert RegisteredSet() == r;
    }

    /** A registry that holds exactly the objects reachable from the root
        stack in an unchanged graph is consistent, and all of it is
        reachable. */
    lemma ReachableConsistent(u0: set<Obj>, g0: Graph, roots: seq<Obj?>)
      requires Sound() && g0 == GraphOf(u0) && Closed(g0) && roots == Roots()
      requires RegisteredSet() == Reachable(g0, roots)
      requires forall i :: 0 <= i < |roots| ==> roots[i] in u0
      requires SlotsApart(u0)
      ensures Consistent() && AllReachable()
    {
      var r := RegisteredSet();
      forall i | 0 <= i < stackSize ensures stack[i] in r {
        RootReachable(g0, Roots(), {}, i);
      }
      ReachableClosed(g0, Roots());
      HoldsFromClosed(u0, r);
      GraphOfRestrict(u0, r);
      ReachRestrict(g0, Roots());
    }

    /** No object of `u` has the root stack as its slot buffer. */
    ghost predicate SlotsApart(u: set<Obj>)
      reads u`objects
    {
      forall x :: x in u ==> x.objects != stack
    }

    /** When every object survives, the registry is unchanged. */
    static lemma AllSurvive(reg0: seq<Obj>, u0: set<Obj>, r: set<Obj>)
      requires |reg0| >= 1 && u0 == Members(reg0) && u0 <= r
      ensures [reg0[0]] + Survivors(reg0[1..], r) == reg0
    {
      SurvivorsAll(reg0[1..], r);
    }

    /** What a collection that starts between collections leaves behind:
        after the sentinel, exactly the objects that were reachable from the
        root stack, in their old order; a consistent registry that is all
        reachable; and, if everything was reachable already, the registry
        as it was. The state in between may have changed only marks and
        registry links. */
    twostate lemma Collected()
      requires old(Sound() && Consistent() && Closed(RefGraph()))
      requires old(|Registry()| >= 1 && Registry()[0] == head.obj && head.obj !in Registry()[1..])
      requires old(RegisteredSet() == Members(Registry()))
      requires old(MarkedSet(RegisteredSet()) <= {head.obj} && ClosedUnder(RefGraph(), MarkedSet(RegisteredSet())))
      requires Sound() && unchanged(this`stackSize) && unchanged(stack)
      requires forall x: Obj :: x in old(RegisteredSet()) ==> unchanged(x`head, x`tail, x`objects) && unchanged(x.objects)
      requires Registry() == [old(Registry())[0]] +
        Survivors(old(Registry())[1..], old(MarkedSet(RegisteredSet()) + ReachSet(RefGraph(), Roots(), MarkedSet(RegisteredSet()))))
      ensures Registry() == [old(Registry())[0]] + Survivors(old(Registry())[1..], old(Reachable(RefGraph(), Roots())))
      ensures RegisteredSet() == old(Reachable(RefGraph(), Roots()))
      ensures Consistent() && AllReachable()
      ensures old(AllReachable()) ==> Registry() == old(Registry())
    {
      var u0 := old(RegisteredSet());
      var reg0 := old(Registry());
      var g0 := old(RefGraph());
      var roots := old(Roots());
      var m0 := old(MarkedSet(RegisteredSet()));
      CollectedRegistry(reg0, u0, g0, roots, m0, m0 + ReachSet(g0, roots, m0));
      GraphOfUnchanged(u0);
      assert roots == Roots();
      assert forall i :: 0 <= i < |roots| ==> roots[i] in u0;
      assert SlotsApart(u0);
      ReachableConsistent(u0, g0, roots);
      if old(AllReachable()) {
        AllSurvive(reg0, u0, Reachable(g0, roots));
      }
    }

    /** gc: markAll followed by sweep. Sweep keeps, after the sentinel, the
        registered objects that were marked before or that marking reached.
        Run between collections, it leaves exactly the objects reachable from
        the root stack, in their old order, and a second run removes
        nothing. */
    method Gc()
      requires Sound() && Consistent()
      modifies this`tail, this`nodes, nodes`next, RegisteredSet()`marked
      ensures Valid() && Quiescent()
      ensures Registry() == [old(Registry())[0]] +
        Survivors(old(Registry())[1..], old(MarkedSet(RegisteredSet()) + ReachSet(RefGraph(), Roots(), MarkedSet(RegisteredSet()))))
      ensures old(Quiescent()) ==> Consistent() && AllReachable() && RegisteredSet() == old(Reachable(RefGraph(), Roots()))
      ensures old(Quiescent()) ==> Registry() == [old(Registry())[0]] + Survivors(old(Registry())[1..], old(Reachable(RefGraph(), Roots())))
      ensures old(Quiescent() && AllReachable()) ==> Registry() == old(Registry())
      ensures forall n :: n in nodes ==> n in old(nodes)
    {
      ghost var q := Quiescent();
      ClosedFromHolds(RegisteredSet());
      RegistryObjects();
      if q {
        QuiescentMarks();
      }
      MarkAll();
      Sweep();
      if q {
        Collected();
      }
    }

    /** gc exactly as written: markAll followed by the sweep that never moves
        `tail`. The registry it leaves is the one gc leaves, but when the
        registry's last object is neither marked before nor reached by
        marking, `tail` is left on a node that is no longer in the list. */
    method GcAsWritten() returns (last: Node)
      requires Sound() && Consistent()
      modifies this`nodes, nodes`next, RegisteredSet()`marked
      ensures Sound() && Quiescent() && EndsAt(last)
      ensures Registry() == [old(Registry())[0]] +
        Survivors(old(Registry())[1..], old(MarkedSet(RegisteredSet()) + ReachSet(RefGraph(), Roots(), MarkedSet(RegisteredSet()))))
      ensures last == old(nodes[|nodes| - 1]) <==> old(nodes[|nodes| - 1] == head ||
        nodes[|nodes| - 1].obj in MarkedSet(RegisteredSet()) + ReachSet(RefGraph(), Roots(), MarkedSet(RegisteredSet())))
      ensures last != old(nodes[|nodes| - 1]) ==> old(nodes[|nodes| - 1]) !in nodes
      ensures old(Quiescent()) ==> Consistent() && AllReachable() && RegisteredSet() == old(Reachable(RefGraph(), Roots()))
      ensures old(Quiescent()) ==> Registry() == [old(Registry())[0]] + Survivors(old(Registry())[1..], old(Reachable(RefGraph(), Roots())))
      ensures old(Quiescent() && AllReachable()) ==> Registry() == old(Registry())
      ensures forall n :: n in nodes ==> n in old(nodes)
      ensures tail == old(tail)
    {
      ghost var q := Quiescent();
      ClosedFromHolds(RegisteredSet());
      RegistryObjects();
      if q {
        QuiescentMarks();
      }
      MarkAll();
      last := SweepAsWritten(nodes[|nodes| - 1]);
      if q {
        Collected();
      }
    }
  }
}
