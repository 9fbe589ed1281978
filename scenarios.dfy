/** Client runs of the collector, each a fixed sequence of VM operations
    whose outcome follows from the operations' contracts alone. The
    sentinel's uninitialised mark is left open as a parameter. */
module Scenarios {
  import opened Objects
  import opened Reachability
  import opened Collector

  /** newVM and one integer: the registry holds the sentinel and the
      integer, which is also the top root and holds the value given. */
  method OneInt(sentinelMark: bool, value: int) returns (vm: VM, first: Obj)
    ensures vm.Valid() && vm.Consistent() && vm.Quiescent()
    ensures vm.Registry() == [vm.head.obj, first] && vm.Roots() == [vm.head.obj, first]
    ensures first.objectType == Value && first.value == value
    ensures fresh(vm) && fresh(vm.stack) && fresh(vm.tail)
    ensures |vm.nodes| == 2 && fresh(vm.nodes[0]) && fresh(vm.nodes[1])
    ensures vm.RegisteredSet() == {vm.head.obj, first} && fresh(vm.head.obj) && fresh(first)
  {
    vm := new VM(sentinelMark);
    first := vm.NewInt(value);
  }

  /** A second integer: it joins the registry and becomes the top root. */
  method SecondInt(vm: VM, first: Obj, value: int) returns (second: Obj)
    requires vm.Valid() && vm.Consistent() && vm.Quiescent()
    requires vm.Registry() == [vm.head.obj, first] && vm.Roots() == [vm.head.obj, first]
    modifies vm`stackSize, vm`tail, vm`nodes, vm.stack, vm.tail`next
    ensures vm.Valid() && vm.Consistent() && vm.Quiescent()
    ensures vm.Registry() == [vm.head.obj, first, second] && vm.Roots() == [vm.head.obj, first, second]
    ensures second.objectType == Value && second.value == value
    ensures vm.nodes == old(vm.nodes) + [vm.tail] && fresh(vm.tail)
    ensures vm.RegisteredSet() == old(vm.RegisteredSet()) + {second} && fresh(second)
  {
    second := vm.NewInt(value);
  }

  /** A pop of the second integer: it leaves the roots but stays
      registered, in the tail node. */
  method PopSecond(vm: VM, first: Obj, second: Obj)
    requires vm.Valid() && vm.Consistent() && vm.Quiescent()
    requires vm.Registry() == [vm.head.obj, first, second] && vm.Roots() == [vm.head.obj, first, second]
    modifies vm`stackSize
    ensures vm.Valid() && vm.Consistent() && vm.Quiescent()
    ensures vm.Registry() == [vm.head.obj, first, second] && vm.tail.obj == second
    ensures vm.Roots() == [vm.head.obj, first]
  {
    var top := vm.PopFromVM();
    ObjsAt(vm.nodes, 2);
  }

  /** Mark on that state: the first integer is a root and gets marked, the
      popped second one is reachable from no root and stays unmarked. */
  method MarkFirstOnly(vm: VM, first: Obj, second: Obj)
    requires vm.Valid() && vm.Consistent() && vm.Quiescent()
    requires vm.Registry() == [vm.head.obj, first, second]
    requires vm.Roots() == [vm.head.obj, first]
    requires first.objectType == Value && second.objectType == Value
    modifies vm.RegisteredSet()`marked
    ensures vm.Valid() && vm.Registry() == old(vm.Registry())
    ensures first.marked && !second.marked
  {
    ghost var g := vm.RefGraph();
    ghost var roots := vm.Roots();
    ghost var m0 := MarkedSet(vm.RegisteredSet());
    vm.RegistryObjects();
    ObjsAt(vm.nodes, 1);
    ObjsAt(vm.nodes, 2);
    ReachLeaves(g, roots, m0);
    RootReachable(g, roots, m0, 1);
    assert first in ReachSet(g, roots, m0) && second !in m0 + ReachSet(g, roots, m0);
    vm.MarkAll();
    assert first in MarkedSet(vm.RegisteredSet()) && second in vm.RegisteredSet();
  }

  /** The sweep as written after that mark: only the sentinel and the first
      integer stay registered, and `tail` is left designating the node of
      the second integer, which is no longer in the list. */
  method StaleTail(vm: VM, first: Obj, second: Obj)
    requires vm.Valid()
    requires vm.Registry() == [vm.head.obj, first, second] && vm.tail.obj == second
    requires first.marked && !second.marked
    modifies vm`nodes, vm.nodes`next, vm.RegisteredSet()`marked
    ensures vm.StackOk() && vm.Linked() && vm.Quiescent()
    ensures vm.Registry() == [vm.head.obj, first]
    ensures !vm.Valid() && vm.tail !in vm.nodes
  {
    ghost var marks := MarkedSet(vm.RegisteredSet());
    vm.RegistryObjects();
    assert first in marks && second !in marks;
    var _ := vm.SweepAsWritten(vm.nodes[|vm.nodes| - 1]);
    assert Survivors([first, second], marks) == [first];
  }

  /** A pair of the two integers, then a pop: the pair leaves the stack
      but stays registered, so three roots remain and the registry holds
      four objects. */
  method PairAndPop(vm: VM, first: Obj, second: Obj) returns (pair: Obj)
    requires vm.Valid() && vm.Consistent() && vm.Quiescent()
    requires vm.Registry() == [vm.head.obj, first, second] && vm.Roots() == [vm.head.obj, first, second]
    modifies vm`stackSize, vm`tail, vm`nodes, vm.stack, vm.tail`next
    ensures vm.Valid() && vm.Consistent() && vm.Quiescent()
    ensures vm.Registry() == [vm.head.obj, first, second, pair]
    ensures vm.stackSize == 3 && vm.Roots() == [vm.head.obj, first, second]
    ensures pair.objectType == ReferencePair && pair.head == first && pair.tail == second
  {
    vm.RegistryObjects();
    pair := vm.NewReferencePair(first, second);
    assert vm.stackSize == 4;
    var top := vm.PopFromVM();
  }

  /** Writing `o` at index `n` of a stack extends its first `n` entries by `o`. */
  lemma PushedPrefix(before: seq<Obj?>, n: int, o: Obj?)
    requires 0 <= n < |before|
    ensures before[n := o][..n + 1] == before[..n] + [o]
  {
  }

  /** newInt seen through the roots: the new integer is pushed on top. */
  method IntOnTop(vm: VM, value: int) returns (a: Obj)
    requires vm.Valid() && vm.stackSize + 1 < MAX_STACK_SIZE
    modifies vm`stackSize, vm`tail, vm`nodes, vm.stack, vm.tail`next
    ensures vm.Valid() && fresh(vm.tail) && vm.Roots() == old(vm.Roots()) + [a]
    ensures a.objectType == Value && |vm.Registry()| == |old(vm.Registry())| + 1
  {
    ghost var st := vm.stack[..];
    a := vm.NewInt(value);
    PushedPrefix(st, vm.stackSize - 1, a);
    assert vm.Roots() == vm.stack[..][..vm.stackSize];
  }

  /** pushFrame seen through the roots: a fresh marker is pushed on top. */
  method MarkerOnTop(vm: VM) returns (marker: Obj)
    requires vm.Valid() && vm.stackSize + 1 < MAX_STACK_SIZE
    modifies vm`stackSize, vm`tail, vm`nodes, vm.stack, vm.tail`next
    ensures vm.Valid() && fresh(vm.tail) && vm.Roots() == old(vm.Roots()) + [marker]
    ensures marker.objectType == FrameMarker && |vm.Registry()| == |old(vm.Registry())| + 1
  {
    var n := vm.stackSize;
    vm.PushFrame();
    marker := vm.stack[n];
    assert vm.Roots() == old(vm.Roots()) + [marker];
  }

  /** A frame and two integers inside it: the roots grow by the marker and
      the two integers. */
  method FrameWithTwoInts(vm: VM) returns (marker: Obj, a: Obj, b: Obj)
    requires vm.Valid() && vm.stackSize + 3 < MAX_STACK_SIZE
    modifies vm`stackSize, vm`tail, vm`nodes, vm.stack, vm.tail`next
    ensures vm.Valid() && fresh(vm.tail) && vm.Roots() == old(vm.Roots()) + [marker] + [a] + [b]
    ensures marker.objectType == FrameMarker && a.objectType == Value && b.objectType == Value
    ensures |vm.Registry()| == |old(vm.Registry())| + 3
  {
    marker := MarkerOnTop(vm);
    a := IntOnTop(vm, 1);
    b := IntOnTop(vm, 2);
  }

  /** popFrame after a frame whose entries above the marker are no frame
      markers: the stack is cut back to what it was below the marker. */
  method PopFrameBack(vm: VM, ghost s: seq<Obj?>, marker: Obj, ghost t: seq<Obj?>)
    requires vm.Valid() && vm.Roots() == s + [marker] + t
    requires marker.objectType == FrameMarker
    requires forall j :: 0 <= j < |t| ==> !IsFrameMarker(t[j])
    modifies vm`stackSize
    ensures vm.Valid() && vm.Roots() == s
  {
    FrameBalance(s, marker, t);
    vm.PopFrame();
    assert vm.Roots() == (s + [marker] + t)[..|s|];
  }

  /** A third integer, popped at once: it stays registered, in the tail
      node, and the roots are the sentinel and the first two integers. */
  method ThirdIntPopped(vm: VM, first: Obj, second: Obj, value: int) returns (third: Obj)
    requires vm.Valid() && vm.Consistent() && vm.Quiescent()
    requires vm.Registry() == [vm.head.obj, first, second] && vm.Roots() == [vm.head.obj, first, second]
    modifies vm`stackSize, vm`tail, vm`nodes, vm.stack, vm.tail`next
    ensures vm.Valid() && vm.Consistent() && vm.Quiescent()
    ensures vm.Registry() == [vm.head.obj, first, second, third] && vm.Roots() == [vm.head.obj, first, second]
    ensures third.objectType == Value && vm.tail.obj == third
    ensures vm.nodes == old(vm.nodes) + [vm.tail] && fresh(vm.tail)
    ensures vm.RegisteredSet() == old(vm.RegisteredSet()) + {third} && fresh(third)
  {
    third := vm.NewInt(value);
    assert vm.stackSize == 4;
    var top := vm.PopFromVM();
  }

  /** Survivors of three objects when only the first two are kept. */
  lemma KeepFirstTwo(a: Obj, b: Obj, c: Obj, r: set<Obj>)
    requires a in r && b in r && c !in r
    ensures Survivors([a, b, c], r) == [a, b]
  {
    assert Survivors([a], r) == [a] by { assert [a][..0] == []; }
    assert Survivors([a, b], r) == [a, b] by { assert [a, b][..1] == [a]; }
    assert [a, b, c][..2] == [a, b];
  }

  /** Leaf roots reach themselves and no other object. */
  lemma LeafRootsOnly(g: Graph, root: Obj, a: Obj, b: Obj, c: Obj)
    requires root in g && a in g && b in g && g[root] == [] && g[a] == [] && g[b] == []
    requires c != root && c != a && c != b
    ensures a in Reachable(g, [root, a, b]) && b in Reachable(g, [root, a, b])
    ensures c !in Reachable(g, [root, a, b])
  {
    ReachLeaves(g, [root, a, b], {});
    RootReachable(g, [root, a, b], {}, 1);
    RootReachable(g, [root, a, b], {}, 2);
  }

  /** On that state the first two integers are reachable and the popped
      third one is not. */
  lemma PoppedUnreachable(vm: VM, first: Obj, second: Obj, third: Obj)
    requires vm.Valid()
    requires vm.Registry() == [vm.head.obj, first, second, third] && vm.Roots() == [vm.head.obj, first, second]
    requires first.objectType == Value && second.objectType == Value
    ensures first in Reachable(vm.RefGraph(), vm.Roots()) && second in Reachable(vm.RefGraph(), vm.Roots())
    ensures third !in Reachable(vm.RefGraph(), vm.Roots())
  {
    vm.RegistryObjects();
    ObjsAt(vm.nodes, 1);
    ObjsAt(vm.nodes, 2);
    ObjsAt(vm.nodes, 3);
    LeafRootsOnly(vm.RefGraph(), vm.head.obj, first, second, third);
  }

  /** gc on a quiescent state of four registered objects: what stays
      registered after the sentinel is the reachable part of the other
      three, in order, and the VM invariant holds afterwards. */
  method GcOnFour(vm: VM, first: Obj, second: Obj, third: Obj)
    requires vm.Valid() && vm.Consistent() && vm.Quiescent()
    requires vm.Registry() == [vm.head.obj, first, second, third]
    modifies vm`tail, vm`nodes, vm.nodes`next, vm.RegisteredSet()`marked
    ensures vm.Valid() && vm.Consistent() && vm.Quiescent()
    ensures vm.Registry() == [vm.head.obj] + Survivors([first, second, third], old(Reachable(vm.RefGraph(), vm.Roots())))
  {
    vm.Gc();
  }

  /** gc on the state of `ThirdIntPopped`: the popped third integer is
      reachable from no root and is the only object collected. */
  method GcDropsPopped(vm: VM, first: Obj, second: Obj, third: Obj)
    requires vm.Valid() && vm.Consistent() && vm.Quiescent()
    requires vm.Registry() == [vm.head.obj, first, second, third] && vm.Roots() == [vm.head.obj, first, second]
    requires first.objectType == Value && second.objectType == Value
    modifies vm`tail, vm`nodes, vm.nodes`next, vm.RegisteredSet()`marked
    ensures vm.Valid() && vm.Consistent() && vm.Quiescent()
    ensures vm.Registry() == [vm.head.obj, first, second]
  {
    PoppedUnreachable(vm, first, second, third);
    KeepFirstTwo(first, second, third, Reachable(vm.RefGraph(), vm.Roots()));
    GcOnFour(vm, first, second, third);
  }

  /** On that state, before any marking, the two integers on the stack are
      among what markAll will have marked and the popped one is not. */
  lemma PoppedUnmarked(vm: VM, first: Obj, second: Obj, third: Obj)
    requires vm.Valid() && vm.Quiescent()
    requires vm.Registry() == [vm.head.obj, first, second, third] && vm.Roots() == [vm.head.obj, first, second]
    requires first.objectType == Value && second.objectType == Value
    ensures first in MarkedSet(vm.RegisteredSet()) + ReachSet(vm.RefGraph(), vm.Roots(), MarkedSet(vm.RegisteredSet()))
    ensures second in MarkedSet(vm.RegisteredSet()) + ReachSet(vm.RefGraph(), vm.Roots(), MarkedSet(vm.RegisteredSet()))
    ensures third !in MarkedSet(vm.RegisteredSet()) + ReachSet(vm.RefGraph(), vm.Roots(), MarkedSet(vm.RegisteredSet()))
  {
    ghost var g := vm.RefGraph();
    ghost var roots := vm.Roots();
    ghost var m0 := MarkedSet(vm.RegisteredSet());
    vm.RegistryObjects();
    ObjsAt(vm.nodes, 1);
    ObjsAt(vm.nodes, 2);
    ObjsAt(vm.nodes, 3);
    ReachLeaves(g, roots, m0);
    RootReachable(g, roots, m0, 1);
    RootReachable(g, roots, m0, 2);
  }

  /** Hence, of the three integers, the mark phase lets the first two
      survive and not the popped one. */
  lemma PoppedSurvivors(vm: VM, first: Obj, second: Obj, third: Obj, marks: set<Obj>)
    requires vm.Valid() && vm.Quiescent()
    requires vm.Registry() == [vm.head.obj, first, second, third] && vm.Roots() == [vm.head.obj, first, second]
    requires first.objectType == Value && second.objectType == Value
    requires marks == MarkedSet(vm.RegisteredSet()) + ReachSet(vm.RefGraph(), vm.Roots(), MarkedSet(vm.RegisteredSet()))
    ensures Survivors([first, second, third], marks) == [first, second] && third !in marks
  {
    PoppedUnmarked(vm, first, second, third);
    KeepFirstTwo(first, second, third, marks);
  }

  /** gc exactly as written on four registered objects whose last one is in
      the tail node, with `marks` what the mark phase will have marked: the
      registry is the sentinel followed by the survivors, and when the last
      object is not among them, `tail` is left outside the list. */
  method GcAsWrittenOnFour(vm: VM, first: Obj, second: Obj, third: Obj, ghost marks: set<Obj>)
    requires vm.Valid() && vm.Consistent()
    requires vm.Registry() == [vm.head.obj, first, second, third] && vm.tail.obj == third
    requires marks == MarkedSet(vm.RegisteredSet()) + ReachSet(vm.RefGraph(), vm.Roots(), MarkedSet(vm.RegisteredSet()))
    modifies vm`nodes, vm.nodes`next, vm.RegisteredSet()`marked
    ensures vm.StackOk() && vm.Linked() && vm.Quiescent()
    ensures vm.Registry() == [vm.head.obj] + Survivors([first, second, third], marks)
    ensures third !in marks ==> vm.tail !in vm.nodes
    ensures old(vm.Quiescent()) ==> vm.Consistent() && vm.AllReachable()
    ensures forall i :: 0 <= i < |vm.nodes| ==> vm.nodes[i] in old(vm.nodes)
    ensures vm.tail == old(vm.tail)
  {
    var last := vm.GcAsWritten();
  }

  /** gc as written on the state of `ThirdIntPopped`: the popped integer is
      collected, and since its node was the last one, `tail` is left
      designating a node outside the list. */
  method GcAsWrittenStale(vm: VM, first: Obj, second: Obj, third: Obj)
    requires vm.Valid() && vm.Consistent() && vm.Quiescent()
    requires vm.Registry() == [vm.head.obj, first, second, third] && vm.Roots() == [vm.head.obj, first, second]
    requires first.objectType == Value && second.objectType == Value && vm.tail.obj == third
    modifies vm`nodes, vm.nodes`next, vm.RegisteredSet()`marked
    ensures vm.StackOk() && vm.Linked() && vm.Quiescent()
    ensures vm.Consistent() && vm.AllReachable()
    ensures vm.Registry() == [vm.head.obj, first, second]
    ensures !vm.Valid() && vm.tail !in vm.nodes
    ensures forall i :: 0 <= i < |vm.nodes| ==> vm.nodes[i] in old(vm.nodes)
  {
    ghost var marks := MarkedSet(vm.RegisteredSet()) + ReachSet(vm.RefGraph(), vm.Roots(), MarkedSet(vm.RegisteredSet()));
    PoppedSurvivors(vm, first, second, third, marks);
    ghost var r := [vm.head.obj] + Survivors([first, second, third], marks);
    assert r == [vm.head.obj, first, second];
    GcAsWrittenOnFour(vm, first, second, third, marks);
  }

  /** gc as written once more on that state: every registered object is
      reachable, so the registry stays as it is, and `tail`, which the sweep
      never moves, stays outside the list. */
  method GcAsWrittenAgain(vm: VM, first: Obj, second: Obj)
    requires vm.StackOk() && vm.Linked() && vm.Consistent() && vm.Quiescent() && vm.AllReachable()
    requires vm.Registry() == [vm.head.obj, first, second] && vm.tail !in vm.nodes
    modifies vm`nodes, vm.nodes`next, vm.RegisteredSet()`marked
    ensures vm.StackOk() && vm.Linked() && vm.Consistent() && vm.Quiescent()
    ensures vm.Registry() == [vm.head.obj, first, second]
    ensures !vm.Valid() && vm.tail !in vm.nodes
  {
    var last := vm.GcAsWritten();
  }

  /** newVM and two integers, as a run of its own: everything the VM
      holds was allocated by the run. */
  method TwoInts(sentinelMark: bool, a: int, b: int) returns (vm: VM, first: Obj, second: Obj)
    ensures vm.Valid() && vm.Consistent() && vm.Quiescent()
    ensures vm.Registry() == [vm.head.obj, first, second] && vm.Roots() == [vm.head.obj, first, second]
    ensures first.objectType == Value && second.objectType == Value
    ensures fresh(vm) && fresh(vm.stack) && fresh(vm.tail) && |vm.nodes| == 3
    ensures fresh(vm.nodes[0]) && fresh(vm.nodes[1]) && fresh(vm.nodes[2])
    ensures vm.RegisteredSet() == {vm.head.obj, first, second}
    ensures fresh(vm.head.obj) && fresh(first) && fresh(second)
  {
    vm, first := OneInt(sentinelMark, a);
    second := SecondInt(vm, first, b);
  }

  /** The run of testGC up to its collection: newVM, three integers, and a
      pop of the third. Everything the VM holds was allocated by the run. */
  method ThreeIntsOnePopped(sentinelMark: bool) returns (vm: VM, first: Obj, second: Obj, third: Obj)
    ensures vm.Valid() && vm.Consistent() && vm.Quiescent()
    ensures vm.Registry() == [vm.head.obj, first, second, third] && vm.Roots() == [vm.head.obj, first, second]
    ensures first.objectType == Value && second.objectType == Value && vm.tail.obj == third
    ensures fresh(vm) && fresh(vm.stack) && |vm.nodes| == 4
    ensures fresh(vm.nodes[0]) && fresh(vm.nodes[1]) && fresh(vm.nodes[2]) && fresh(vm.nodes[3])
    ensures vm.RegisteredSet() == {vm.head.obj, first, second, third}
    ensures fresh(vm.head.obj) && fresh(first) && fresh(second) && fresh(third)
  {
    vm, first, second := TwoInts(sentinelMark, 0, 1);
    third := ThirdIntPopped(vm, first, second, 2);
  }

  /** testGC, run through: gc leaves 3 objects on the stack and 3
      registered. */
  method TestGC(sentinelMark: bool) returns (vm: VM, first: Obj, second: Obj)
    ensures vm.Valid() && vm.stackSize == 3 && vm.Registry() == [vm.head.obj, first, second]
  {
    var third;
    vm, first, second, third := ThreeIntsOnePopped(sentinelMark);
    assert vm.stackSize == 3 && |vm.Registry()| == 4;
    assert forall i :: 0 <= i < |vm.nodes| ==> fresh(vm.nodes[i]);
    GcDropsPopped(vm, first, second, third);
  }

  /** The run of testGC with gc exactly as written, and then a second gc:
      the first collects the popped integer and leaves `tail` outside the
      list, and the second, started from that state, keeps the registry. */
  method TestGCAsWrittenTwice(sentinelMark: bool) returns (vm: VM, first: Obj, second: Obj)
    ensures vm.StackOk() && vm.Linked()
    ensures vm.Registry() == [vm.head.obj, first, second]
    ensures !vm.Valid() && vm.tail !in vm.nodes
  {
    var third;
    vm, first, second, third := ThreeIntsOnePopped(sentinelMark);
    assert forall i :: 0 <= i < |vm.nodes| ==> fresh(vm.nodes[i]);
    GcAsWrittenStale(vm, first, second, third);
    assert forall i :: 0 <= i < |vm.nodes| ==> fresh(vm.nodes[i]);
    GcAsWrittenAgain(vm, first, second);
  }

  /** gc from a state with no stray marks: exactly the reachable objects
      stay, each of them still reachable, and the registry only shrinks. */
  method GcReaching(vm: VM)
    requires vm.Valid() && vm.Consistent() && vm.Quiescent()
    modifies vm`tail, vm`nodes, vm.nodes`next, vm.RegisteredSet()`marked
    ensures vm.Valid() && vm.Consistent() && vm.Quiescent() && vm.AllReachable()
    ensures vm.Registry() == [old(vm.Registry())[0]] + Survivors(old(vm.Registry())[1..], old(Reachable(vm.RefGraph(), vm.Roots())))
    ensures forall i :: 0 <= i < |vm.nodes| ==> vm.nodes[i] in old(vm.nodes)
    ensures vm.RegisteredSet() <= old(vm.RegisteredSet())
  {
    vm.Gc();
  }

  /** gc when everything registered is reachable keeps the registry. */
  method GcKeepsAll(vm: VM)
    requires vm.Valid() && vm.Consistent() && vm.Quiescent() && vm.AllReachable()
    modifies vm`tail, vm`nodes, vm.nodes`next, vm.RegisteredSet()`marked
    ensures vm.Valid() && vm.Consistent() && vm.Quiescent()
    ensures vm.Registry() == old(vm.Registry())
  {
    vm.Gc();
  }

  /** gc run twice with nothing in between: the second run removes
      nothing, so two collections leave what one leaves. */
  method GcTwice(vm: VM)
    requires vm.Valid() && vm.Consistent() && vm.Quiescent()
    modifies vm`tail, vm`nodes, vm.nodes`next, vm.RegisteredSet()`marked
    ensures vm.Valid() && vm.Consistent() && vm.Quiescent()
    ensures vm.Registry() == [old(vm.Registry())[0]] + Survivors(old(vm.Registry())[1..], old(Reachable(vm.RefGraph(), vm.Roots())))
  {
    GcReaching(vm);
    GcKeepsAll(vm);
  }

  /** testNewInt, run through: the new integer holds 7. */
  method TestNewInt(sentinelMark: bool) returns (vm: VM, o: Obj)
    ensures vm.Valid() && vm.Registry() == [vm.head.obj, o] && o.value == 7
  {
    vm, o := OneInt(sentinelMark, 7);
  }

  /** testVmLinkedList, run through: after two integers, a pair of them and
      a pop, 3 objects are on the stack and 4 are registered. */
  method TestVmLinkedList(sentinelMark: bool) returns (vm: VM)
    ensures vm.Valid() && vm.stackSize == 3 && |vm.Registry()| == 4
  {
    var first, second;
    vm, first, second := TwoInts(sentinelMark, 1, 2);
    var pair := PairAndPop(vm, first, second);
  }

  /** testMarkAndSweep, run through: 3 objects are registered after the
      mark, 2 after the sweep, and the sweep as written leaves `tail`
      outside the list. */
  method TestMarkAndSweep(sentinelMark: bool) returns (vm: VM)
    ensures vm.stackSize == 2 && |vm.Registry()| == 2
    ensures !vm.Valid() && vm.tail !in vm.nodes
  {
    var first, second;
    vm, first, second := TwoInts(sentinelMark, 1, 2);
    PopSecond(vm, first, second);
    MarkFirstOnly(vm, first, second);
    assert vm.stackSize == 2 && |vm.Registry()| == 3;
    StaleTail(vm, first, second);
  }

  /** newVM and two frames of two integers each: 7 objects on the stack. */
  method TwoFrames(sentinelMark: bool) returns (vm: VM, m1: Obj, m2: Obj, ghost inner: seq<Obj?>, ghost outer: seq<Obj?>)
    ensures fresh(vm) && vm.Valid() && vm.stackSize == 7 && |inner| == 2 && |outer| == 2
    ensures vm.Roots() == [vm.head.obj] + [m1] + outer + [m2] + inner
    ensures m1.objectType == FrameMarker && m2.objectType == FrameMarker
    ensures forall j :: 0 <= j < 2 ==> !IsFrameMarker(inner[j]) && !IsFrameMarker(outer[j])
  {
    vm := new VM(sentinelMark);
    var a, b, c, d;
    m1, a, b := FrameWithTwoInts(vm);
    m2, c, d := FrameWithTwoInts(vm);
    outer, inner := [a, b], [c, d];
  }

  /** testFrameMarkers, run through: each popFrame removes one frame,
      leaving 4 objects on the stack and then only the sentinel. */
  method TestFrameMarkers(sentinelMark: bool) returns (vm: VM)
    ensures vm.Valid() && vm.stackSize == 1
  {
    var m1, m2;
    ghost var inner, outer;
    vm, m1, m2, inner, outer := TwoFrames(sentinelMark);
    PopFrameBack(vm, [vm.head.obj] + [m1] + outer, m2, inner);
    assert vm.stackSize == 4;
    PopFrameBack(vm, [vm.head.obj], m1, outer);
  }
}
