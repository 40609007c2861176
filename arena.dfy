/**
 * The allocator side of BehaviorTree.c: every node and decorator that has
 * been created and not freed, keyed by an id that stands for its address.
 * Ids are handed out in increasing order, so a child, which must exist
 * before the node that adopts it, always has a smaller id than its parent.
 */
module Arena {
  import opened Types
  import opened Validation
  import Decorators
  import opened Teardown

  /** `m` after one more reference to the child `p` (nothing for NULL). */
  function Bump(m: map<NodeId, Node>, p: Option<NodeId>): (r: map<NodeId, Node>)
    requires p.Some? ==> p.value in m
    ensures r.Keys == m.Keys
    ensures forall k :: k in m ==> r[k] == m[k].(refCount := r[k].refCount)
  {
    if p.None? then m else m[p.value := m[p.value].(refCount := m[p.value].refCount + 1)]
  }

  predicate AllIn(m: map<NodeId, Node>, kids: seq<Option<NodeId>>)
  {
    forall j :: 0 <= j < |kids| ==> kids[j].Some? ==> kids[j].value in m
  }

  /** The nodes after createBehaviorNode's copy loop has taken a reference to each of `kids` in turn. */
  function Adopt(m: map<NodeId, Node>, kids: seq<Option<NodeId>>): (r: map<NodeId, Node>)
    requires AllIn(m, kids)
    ensures r.Keys == m.Keys
    decreases |kids|
  {
    if |kids| == 0 then m else Adopt(Bump(m, kids[0]), kids[1..])
  }

  /** How many entries of `kids` point at node `k`. */
  function Occurrences(kids: seq<Option<NodeId>>, k: NodeId): nat
    decreases |kids|
  {
    if |kids| == 0 then 0 else (if kids[0] == Some(k) then 1 else 0) + Occurrences(kids[1..], k)
  }

  /**
   * Adopting a child array raises each node's reference count by the number
   * of times the array points at it, and changes nothing else.
   */
  lemma {:induction false} AdoptCounts(m: map<NodeId, Node>, kids: seq<Option<NodeId>>)
    requires AllIn(m, kids)
    ensures forall k :: k in m ==> Adopt(m, kids)[k] == m[k].(refCount := m[k].refCount + Occurrences(kids, k))
    decreases |kids|
  {
    if |kids| != 0 {
      var m1 := Bump(m, kids[0]);
      assert AllIn(m1, kids[1..]);
      AdoptCounts(m1, kids[1..]);
    }
  }

  lemma AdoptStep(m: map<NodeId, Node>, kids: seq<Option<NodeId>>, i: nat)
    requires i < |kids| && AllIn(m, kids)
    ensures AllIn(Bump(m, kids[i]), kids) && AllIn(Bump(m, kids[i]), kids[i + 1..])
    ensures Adopt(m, kids[i..]) == Adopt(Bump(m, kids[i]), kids[i + 1..])
  {
    assert kids[i..][0] == kids[i] && kids[i..][1..] == kids[i + 1..];
  }

  /** The heap invariant the arena keeps, stated on heap values. */
  ghost predicate WellFormed(h: Heap)
  {
    Ordered(h) && forall k :: k in h.nodes ==> Admitted(h.nodes[k])
  }

  /**
   * Freeing keeps the heap well formed: survivors keep their children and
   * their validated shape; only counts and decorator links change.
   */
  lemma ShrinksKeepsWellFormed(h: Heap, h2: Heap)
    requires WellFormed(h) && Shrinks(h, h2)
    ensures WellFormed(h2)
  {
    ShrinksKeepsOrder(h, h2);
    forall k | k in h2.nodes
      ensures Admitted(h2.nodes[k])
    {
      assert h2.nodes[k].children == h.nodes[k].children;
    }
  }

  /**
   * A well-formed heap in which every child pointer is live and every
   * decorator node with children has a live decorator, with a positive
   * count when it is a Repeat, is one executeNode can run.
   */
  lemma ClosedHeapRunnable(h: Heap)
    requires WellFormed(h)
    requires forall k, j :: k in h.nodes && 0 <= j < |Kids(h.nodes[k])| ==> InHeap(h, Kids(h.nodes[k])[j])
    requires forall k :: k in h.nodes && NodeTypeOf(h.nodes[k].role) == Some(Decorated) ==>
               && h.nodes[k].decorator.Some? && h.nodes[k].decorator.value in h.decorators
               && (DecoratorTypeOf(h.decorators[h.nodes[k].decorator.value].kind) == Some(Repeat) ==>
                     h.decorators[h.nodes[k].decorator.value].param >= 1)
    ensures Runnable(h)
  {
    forall k | k in h.nodes
      ensures NodeRunnable(h, k, h.nodes[k])
    {
      AdmittedShape(h.nodes[k]);
    }
  }

  /**
   * Every node reachable from `p` in `h` is still allocated in `h2`, with the
   * same decorator link, and the decorator it links to is still allocated.
   */
  ghost predicate Survives(h: Heap, h2: Heap, p: Option<NodeId>)
    requires RunnableFrom(h, p)
    decreases Rank(p)
  {
    p.Some? ==>
      && p.value in h2.nodes
      && h2.nodes[p.value].decorator == h.nodes[p.value].decorator
      && (h.nodes[p.value].decorator.Some? ==> h.nodes[p.value].decorator.value in h2.decorators)
      && forall j :: 0 <= j < |Kids(h.nodes[p.value])| ==> Survives(h, h2, Kids(h.nodes[p.value])[j])
  }

  /**
   * Releases elsewhere in the heap (any `Shrinks`, a teardown of another tree
   * included) leave a tree runnable as long as nothing it reaches was freed.
   */
  lemma {:induction false} SurvivingTreeRunnable(h: Heap, h2: Heap, p: Option<NodeId>)
    requires RunnableFrom(h, p) && Shrinks(h, h2) && Survives(h, h2, p)
    ensures RunnableFrom(h2, p)
    decreases Rank(p)
  {
    if p.Some? {
      var id := p.value;
      var n := h.nodes[id];
      assert h2.nodes[id] == n.(refCount := h2.nodes[id].refCount);
      assert Kids(h2.nodes[id]) == Kids(n);
      forall j | 0 <= j < |Kids(n)|
        ensures RunnableFrom(h2, Kids(n)[j])
      {
        SurvivingTreeRunnable(h, h2, Kids(n)[j]);
      }
    }
  }

  // An instance of SurvivingTreeRunnable: two trees that share a leaf. Leaf 0 is a child of Sequence 3 only; leaf 1
  // is a child of Selector 2 and of Sequence 3.
  function Leaf0(): Node { Node(None, Some(0), 0, 1, NodeTypeCode(Action), None) }
  function Leaf1(): Node { Node(None, Some(1), 0, 2, NodeTypeCode(Action), None) }
  function Sel2(): Node { Node(None, None, 1, 0, NodeTypeCode(Selector), Some([Some(1)])) }
  function Seq3(): Node { Node(None, None, 2, 0, NodeTypeCode(Sequence), Some([Some(1), Some(0)])) }
  function SharedHeap(): Heap { Heap(map[0 := Leaf0(), 1 := Leaf1(), 2 := Sel2(), 3 := Seq3()], map[]) }
  /** SharedHeap after freeBehaviorTree(3). */
  function SharedHeapAfter(): Heap
  {
    Heap(map[1 := Leaf1().(refCount := 1), 2 := Sel2(), 3 := Seq3().(refCount := -1)], map[])
  }

  lemma SharedHeapRunnable()
    ensures Ordered(SharedHeap()) && Runnable(SharedHeap())
  {
    var h := SharedHeap();
    forall id | id in h.nodes
      ensures NodeRunnable(h, id, h.nodes[id])
    {
      assert id == 0 || id == 1 || id == 2 || id == 3;
      assert Kids(Sel2())[0] == Some(1) && Kids(Seq3())[0] == Some(1) && Kids(Seq3())[1] == Some(0);
    }
  }

  /** SharedHeap during freeBehaviorTree(3): after child 1, then after child 0. */
  function SharedHeapAfterLeaf1(): Heap
  {
    Heap(map[0 := Leaf0(), 1 := Leaf1().(refCount := 1), 2 := Sel2(), 3 := Seq3()], map[])
  }
  function SharedHeapAfterLeaf0(): Heap
  {
    Heap(map[1 := Leaf1().(refCount := 1), 2 := Sel2(), 3 := Seq3()], map[])
  }

  /** The shared leaf only loses a reference. */
  lemma SharedLeafReleased()
    ensures Ordered(SharedHeap()) && Ordered(SharedHeapAfterLeaf1())
    ensures FreeSpec(SharedHeap(), Some(1)) == Released(SharedHeapAfterLeaf1(), 1)
  {
    SharedHeapRunnable();
    var h := SharedHeap();
    assert FreeKids(h, 1, Kids(Leaf1()), 0) == Released(h, 1);
    assert ReleaseSelf(h, 1) == Released(SharedHeapAfterLeaf1(), 1);
    ReleaseSelfShrinks(h, 1);
    ShrinksKeepsOrder(h, SharedHeapAfterLeaf1());
  }

  /** The unshared leaf is freed. */
  lemma UnsharedLeafFreed()
    requires Ordered(SharedHeapAfterLeaf1())
    ensures FreeSpec(SharedHeapAfterLeaf1(), Some(0)) == Released(SharedHeapAfterLeaf0(), 1)
  {
    var ha := SharedHeapAfterLeaf1();
    assert FreeKids(ha, 0, Kids(Leaf0()), 0) == Released(ha, 1);
    assert ha.nodes - {0} == SharedHeapAfterLeaf0().nodes;
    assert ReleaseSelf(ha, 0) == Released(SharedHeapAfterLeaf0(), 1);
  }

  /** The child loop of freeBehaviorTree(3): leaf 1, then leaf 0. */
  lemma SharedHeapKidsReleased()
    ensures Ordered(SharedHeap()) && 3 in SharedHeap().nodes
    ensures FreeKids(SharedHeap(), 3, Kids(SharedHeap().nodes[3]), 0) == Released(SharedHeapAfterLeaf0(), 1)
  {
    SharedLeafReleased();
    UnsharedLeafFreed();
    var kids := Kids(Seq3());
    assert kids == [Some(1), Some(0)];
    FirstKidReleased(kids);
    SecondKidReleased(kids);
  }

  lemma FirstKidReleased(kids: seq<Option<NodeId>>)
    requires kids == [Some(1), Some(0)]
    requires Ordered(SharedHeap()) && Ordered(SharedHeapAfterLeaf1())
    requires FreeSpec(SharedHeap(), Some(1)) == Released(SharedHeapAfterLeaf1(), 1)
    ensures FreeKids(SharedHeap(), 3, kids, 0) == FreeKids(SharedHeapAfterLeaf1(), 3, kids, 1)
  {
    FreeKidsStep(SharedHeap(), 3, kids, 0, FreeSpec(SharedHeap(), Some(1)));
  }

  lemma SecondKidReleased(kids: seq<Option<NodeId>>)
    requires kids == [Some(1), Some(0)]
    requires Ordered(SharedHeapAfterLeaf1())
    requires FreeSpec(SharedHeapAfterLeaf1(), Some(0)) == Released(SharedHeapAfterLeaf0(), 1)
    ensures FreeKids(SharedHeapAfterLeaf1(), 3, kids, 1) == Released(SharedHeapAfterLeaf0(), 1)
  {
    FreeKidsStep(SharedHeapAfterLeaf1(), 3, kids, 1, FreeSpec(SharedHeapAfterLeaf1(), Some(0)));
    assert FreeKids(SharedHeapAfterLeaf0(), 3, kids, 2) == Released(SharedHeapAfterLeaf0(), 1);
  }

  /** Freeing Sequence 3 frees leaf 0 and leaves 3 behind at count -1. */
  lemma SharedHeapTeardown()
    ensures Ordered(SharedHeap())
    ensures FreeSpec(SharedHeap(), Some(3)) == Released(SharedHeapAfter(), 1)
  {
    SharedHeapKidsReleased();
    FreeSpecAfterKids(SharedHeap(), 3, SharedHeapAfterLeaf0());
    UnadoptedRootReleased();
  }

  /** The unadopted root drops to count -1 and stays. */
  lemma UnadoptedRootReleased()
    ensures 3 in SharedHeapAfterLeaf0().nodes
    ensures ReleaseSelf(SharedHeapAfterLeaf0(), 3) == Released(SharedHeapAfter(), 1)
  {
    var hb := SharedHeapAfterLeaf0();
    assert DropDecorator(hb, 3) == hb;
    assert hb.nodes[3 := Seq3().(refCount := -1)] == SharedHeapAfter().nodes;
  }

  /** After the teardown, Selector 2 can still run, Sequence 3 cannot. */
  lemma SharedHeapAfterRunnable()
    ensures !Runnable(SharedHeapAfter())
    ensures RunnableFrom(SharedHeapAfter(), Some(2)) && !RunnableFrom(SharedHeapAfter(), Some(3))
  {
    var h2 := SharedHeapAfter();
    assert !NodeRunnable(h2, 3, h2.nodes[3]) by {
      assert Kids(h2.nodes[3])[1] == Some(0);
    }
    assert RunnableFrom(h2, Some(2)) by {
      assert Kids(Sel2())[0] == Some(1);
      assert RunnableFrom(h2, Some(1));
    }
  }

  /**
   * Teardown of one tree leaves a tree that shares a child with it runnable,
   * although the heap as a whole, which still holds the unadopted root with
   * its dangling child, is not.
   */
  lemma SharedTreeSurvivesTeardown()
    ensures Runnable(SharedHeap()) && FreeSpec(SharedHeap(), Some(3)).Released?
    ensures var h2 := FreeSpec(SharedHeap(), Some(3)).heap;
            && 0 !in h2.nodes && h2.nodes[3].refCount == -1
            && !Runnable(h2) && RunnableFrom(h2, Some(2)) && !RunnableFrom(h2, Some(3))
  {
    SharedHeapRunnable();
    SharedHeapTeardown();
    SharedHeapAfterRunnable();
  }

  /**
   * The loop `for (i = 0; i < child_count; i++)` of createBehaviorNode over
   * the node table `m0`: it copies each offered pointer and raises the count
   * of the node it points at.
   */
  method CopyChildren(m0: map<NodeId, Node>, children: seq<Option<NodeId>>, childCount: int)
      returns (m: map<NodeId, Node>, copy: seq<Option<NodeId>>)
    requires childCount <= |children| && AllIn(m0, Offered(children, childCount))
    ensures copy == Offered(children, childCount)
    ensures m == Adopt(m0, copy)
  {
    ghost var offered := Offered(children, childCount);
    m := m0;
    copy := [];
    if childCount > 0 {
      var i := 0;
      while i < childCount
        invariant 0 <= i <= childCount && |offered| == childCount
        invariant copy == children[..i]
        invariant AllIn(m, offered)
        invariant Adopt(m0, offered) == Adopt(m, offered[i..])
      {
        AdoptStep(m, offered, i);
        ghost var before := m;
        var c := children[i];
        if c.Some? {
          m := m[c.value := m[c.value].(refCount := m[c.value].refCount + 1)];
        }
        assert c == offered[i] && m == Bump(before, c);
        copy := copy + [c];
        i := i + 1;
      }
      assert offered[i..] == [];
    }
  }

  class Arena {
    var nodes: map<NodeId, Node>
    var decorators: map<DecoratorId, Decorator>
    var nextNode: NodeId
    var nextDecorator: DecoratorId

    function View(): Heap
      reads this
    {
      Heap(nodes, decorators)
    }

    ghost predicate Valid()
      reads this
    {
      && WellFormed(View())
      && (forall k :: k in nodes ==> k < nextNode)
      && (forall d :: d in decorators ==> d < nextDecorator)
      && (forall k :: k in nodes && nodes[k].decorator.Some? ==> nodes[k].decorator.value < nextDecorator)
    }

    constructor()
      ensures Valid()
      ensures nodes == map[] && decorators == map[]
    {
      nodes := map[];
      decorators := map[];
      nextNode := 0;
      nextDecorator := 0;
    }

    /**
     * createBehaviorNode: copy the first `childCount` child pointers, taking
     * a reference to each non-NULL one, then validate. An accepted node is
     * stored with reference count 0 and no decorator; a rejected one is not
     * stored (NULL), but the references it took stay taken.
     */
    method CreateBehaviorNode(children: seq<Option<NodeId>>, childCount: int, role: int, action: Option<ActionId>)
        returns (r: Option<NodeId>)
      requires Valid()
      requires childCount <= |children|
      requires forall j :: 0 <= j < |children| && j < childCount ==> InHeap(View(), children[j])
      modifies this
      ensures Valid()
      ensures AllIn(old(nodes), Offered(children, childCount))
      ensures var adopted := Adopt(old(nodes), Offered(children, childCount));
              var cand := Candidate(children, childCount, role, action);
              if BehaviorNodeCheck(role, cand).Some? then
                && r == Some(old(nextNode)) && old(nextNode) !in old(nodes)
                && nodes == adopted[old(nextNode) := cand] && nextNode == old(nextNode) + 1
              else
                r.None? && nodes == adopted && nextNode == old(nextNode)
      ensures decorators == old(decorators) && nextDecorator == old(nextDecorator)
    {
      var copy := AdoptChildren(children, childCount);
      var cand := Node(None, action, childCount, 0, role, if childCount > 0 then Some(copy) else None);
      assert cand == Candidate(children, childCount, role, action);
      AcceptanceTable(children, childCount, role, action);
      var checked := BehaviorNodeCheck(role, cand);
      if checked.None? {
        r := None;
        return;
      }
      r := Some(nextNode);
      assert forall j :: 0 <= j < |Kids(cand)| ==> Rank(Kids(cand)[j]) <= nextNode;
      nodes := nodes[nextNode := cand];
      nextNode := nextNode + 1;
    }

    /**
     * The copy loop of createBehaviorNode: the copied array, and one more
     * reference to every non-NULL child for each time it is offered.
     */
    method AdoptChildren(children: seq<Option<NodeId>>, childCount: int) returns (copy: seq<Option<NodeId>>)
      requires Valid()
      requires childCount <= |children|
      requires forall j :: 0 <= j < |children| && j < childCount ==> InHeap(View(), children[j])
      modifies this
      ensures Valid()
      ensures copy == Offered(children, childCount)
      ensures AllIn(old(nodes), copy) && nodes == Adopt(old(nodes), copy)
      ensures forall j :: 0 <= j < |copy| ==> InHeap(View(), copy[j])
      ensures decorators == old(decorators) && nextNode == old(nextNode) && nextDecorator == old(nextDecorator)
    {
      assert AllIn(nodes, Offered(children, childCount));
      var m;
      m, copy := CopyChildren(nodes, children, childCount);
      nodes := m;
      AdoptCounts(old(nodes), copy);
      assert WellFormed(View()) by {
        ShrinksKeepsWellFormed(old(View()), View());
      }
    }

    /** createEmptyDecorator: a zeroed decorator (an Invert with count 0). */
    method CreateEmptyDecorator() returns (d: DecoratorId)
      requires Valid()
      modifies this
      ensures Valid()
      ensures d == old(nextDecorator) && d !in old(decorators)
      ensures decorators == old(decorators)[d := Decorators.Empty()] && nextDecorator == d + 1
      ensures nodes == old(nodes) && nextNode == old(nextNode)
    {
      d := nextDecorator;
      decorators := decorators[d := Decorator(0, 0, 0)];
      nextDecorator := nextDecorator + 1;
    }

    /** createRepeatDecorator(n). */
    method CreateRepeatDecorator(n: uint32) returns (d: DecoratorId)
      requires Valid()
      modifies this
      ensures Valid()
      ensures d == old(nextDecorator) && d !in old(decorators)
      ensures decorators == old(decorators)[d := Decorators.RepeatOf(n)] && nextDecorator == d + 1
      ensures nodes == old(nodes) && nextNode == old(nextNode)
    {
      d := CreateEmptyDecorator();
      decorators := decorators[d := decorators[d].(kind := DecoratorTypeCode(Repeat))];
      decorators := decorators[d := decorators[d].(param := n)];
    }

    /** createDelayDecorator(n): the delay goes into the shared parameter cell. */
    method CreateDelayDecorator(n: uint32) returns (d: DecoratorId)
      requires Valid()
      modifies this
      ensures Valid()
      ensures d == old(nextDecorator) && d !in old(decorators)
      ensures decorators == old(decorators)[d := Decorators.DelayOf(n)] && nextDecorator == d + 1
      ensures nodes == old(nodes) && nextNode == old(nextNode)
    {
      d := CreateEmptyDecorator();
      decorators := decorators[d := decorators[d].(kind := DecoratorTypeCode(Delay))];
      decorators := decorators[d := decorators[d].(param := n)];
    }

    /** createConditionalDecorator(). */
    method CreateConditionalDecorator() returns (d: DecoratorId)
      requires Valid()
      modifies this
      ensures Valid()
      ensures d == old(nextDecorator) && d !in old(decorators)
      ensures decorators == old(decorators)[d := Decorators.ConditionalOf()] && nextDecorator == d + 1
      ensures nodes == old(nodes) && nextNode == old(nextNode)
    {
      d := CreateEmptyDecorator();
      decorators := decorators[d := decorators[d].(kind := DecoratorTypeCode(Conditional))];
    }

    /** createDecorator(kind, param): the pointer is dereferenced only for the kinds that read it. */
    method CreateDecorator(kind: int, param: Option<uint32>) returns (d: DecoratorId)
      requires Valid()
      requires Decorators.ReadsParam(kind) ==> param.Some?
      modifies this
      ensures Valid()
      ensures d == old(nextDecorator) && d !in old(decorators)
      ensures decorators == old(decorators)[d := Decorators.Make(kind, param)] && nextDecorator == d + 1
      ensures nodes == old(nodes) && nextNode == old(nextNode)
    {
      d := CreateEmptyDecorator();
      decorators := decorators[d := decorators[d].(kind := kind)];
      if kind == DecoratorTypeCode(Repeat) || kind == DecoratorTypeCode(RepeatUntilSuccess)
         || kind == DecoratorTypeCode(Delay) {
        decorators := decorators[d := decorators[d].(param := param.value)];
      }
    }

    /**
     * `node->decorator = d`: a plain field store. No reference count is
     * raised, neither the decorator's nor the node's.
     */
    method AttachDecorator(node: NodeId, d: Option<DecoratorId>)
      requires Valid()
      requires node in nodes
      requires d.None? || d.value < nextDecorator
      modifies this
      ensures Valid()
      ensures nodes == old(nodes)[node := old(nodes)[node].(decorator := d)]
      ensures decorators == old(decorators) && nextNode == old(nextNode) && nextDecorator == old(nextDecorator)
    {
      nodes := nodes[node := nodes[node].(decorator := d)];
      assert WellFormed(View()) by {
        assert Kids(nodes[node]) == Kids(old(nodes)[node]);
      }
    }

    /**
     * freeBehaviorTree(node), imperatively: release the children in order,
     * stopping with 0 at a NULL child or a failed release; then drop one
     * reference to the decorator and to the node, freeing each at 0. It does
     * exactly what FreeSpec describes, as long as FreeSpec finds no use after
     * free.
     */
    method FreeBehaviorTree(node: Option<NodeId>) returns (result: int)
      requires Valid()
      requires FreeSpec(View(), node).Released?
      modifies this
      ensures Valid()
      ensures FreeSpec(old(View()), node) == Released(View(), result)
      ensures nextNode == old(nextNode) && nextDecorator == old(nextDecorator)
      decreases Rank(node), 1
    {
      if node.None? {
        return 0;
      }
      var id := node.value;
      ghost var h0 := View();
      result := FreeChildren(id);
      if result == 0 {
        return 0;
      }
      FreeSpecAfterKids(h0, id, View());
      ghost var h1 := View();
      ReleaseNode(id);
      ReleaseSelfShrinks(h1, id);
      ShrinksKeepsWellFormed(h1, View());
    }

    /** The child loop of freeBehaviorTree for node `id`. */
    method FreeChildren(id: NodeId) returns (result: int)
      requires Valid() && id in nodes
      requires FreeKids(View(), id, Kids(nodes[id]), 0).Released?
      modifies this
      ensures Valid()
      ensures FreeKids(old(View()), id, Kids(old(nodes)[id]), 0) == Released(View(), result)
      ensures nextNode == old(nextNode) && nextDecorator == old(nextDecorator)
      decreases id + 1, 0
    {
      ghost var h0 := View();
      var n := nodes[id];
      assert Shaped(n) && ChildrenBelow(n, id);
      var i := 0;
      while i < n.childCount
        invariant 0 <= i <= |Kids(n)| && |Kids(n)| == if n.childCount > 0 then n.childCount else 0
        invariant Valid()
        invariant id in nodes && nodes[id] == n
        invariant FreeKids(h0, id, Kids(n), 0) == FreeKids(View(), id, Kids(n), i)
        invariant nextNode == old(nextNode) && nextDecorator == old(nextDecorator)
        decreases n.childCount - i
      {
        var c := n.children.value[i];
        if c.None? {
          return 0;
        }
        ghost var h1 := View();
        var r := FreeBehaviorTree(c);
        FreeKidsStep(h1, id, Kids(n), i, FreeSpec(h1, c));
        if r == 0 {
          return 0;
        }
        i := i + 1;
      }
      return 1;
    }

    /**
     * The end of freeBehaviorTree for a node whose children are released:
     * `--decorator->reference_count`, freeing the decorator and clearing the
     * link at 0, then `--node->reference_count`, freeing the node at 0.
     */
    method ReleaseNode(id: NodeId)
      requires id in nodes && ReleaseSelf(View(), id).Released?
      modifies this
      ensures View() == ReleaseSelf(old(View()), id).heap
      ensures nextNode == old(nextNode) && nextDecorator == old(nextDecorator)
    {
      ghost var h1 := View();
      ghost var o := ReleaseSelf(h1, id);
      var ns, ds := nodes, decorators;
      var n := ns[id];
      if n.decorator.Some? {
        var d := n.decorator.value;
        var dec := ds[d];
        if dec.refCount - 1 == 0 {
          ds := ds - {d};
          ns := ns[id := n.(decorator := None)];
        } else {
          ds := ds[d := dec.(refCount := dec.refCount - 1)];
        }
      }
      assert Heap(ns, ds) == DropDecorator(h1, id);
      var m := ns[id];
      if m.refCount - 1 == 0 {
        ns := ns - {id};
      } else {
        ns := ns[id := m.(refCount := m.refCount - 1)];
      }
      assert Heap(ns, ds) == o.heap;
      nodes, decorators := ns, ds;
    }
  }
}
