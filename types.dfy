/**
 * The data model of the behaviour tree: the two C enumerations (node role and
 * decorator kind), the decorator and node records, and the heap in which
 * nodes and decorators live. Pointers become ids into the heap; a nullable
 * pointer becomes an Option.
 */
module Types {

  datatype Option<+T> = None | Some(value: T)

  /** C `uint32_t`. */
  type uint32 = x: int | 0 <= x < 0x1_0000_0000

  type NodeId = nat
  type DecoratorId = nat
  /** Identifies one action/condition callback (a C function pointer). */
  type ActionId = nat

  /** The seven node roles, in the order of the C enumeration. */
  datatype NodeType = Action | Condition | Sequence | Selector | Parallel | Decorated | Memory

  /** The enumeration value C stores for a role. */
  function NodeTypeCode(t: NodeType): (code: int)
    ensures 0 <= code < 7
    ensures NodeTypeOf(code) == Some(t)
  {
    match t
    case Action => 0
    case Condition => 1
    case Sequence => 2
    case Selector => 3
    case Parallel => 4
    case Decorated => 5
    case Memory => 6
  }

  /** Decodes a stored role; integers outside the enumeration are unknown roles. */
  function NodeTypeOf(code: int): (t: Option<NodeType>)
    ensures t.Some? <==> 0 <= code < 7
  {
    if code == 0 then Some(Action)
    else if code == 1 then Some(Condition)
    else if code == 2 then Some(Sequence)
    else if code == 3 then Some(Selector)
    else if code == 4 then Some(Parallel)
    else if code == 5 then Some(Decorated)
    else if code == 6 then Some(Memory)
    else None
  }

  /** The five decorator kinds, in the order of the C enumeration. */
  datatype DecoratorType = Invert | Repeat | RepeatUntilSuccess | Conditional | Delay

  function DecoratorTypeCode(k: DecoratorType): (code: int)
    ensures 0 <= code < 5
    ensures DecoratorTypeOf(code) == Some(k)
  {
    match k
    case Invert => 0
    case Repeat => 1
    case RepeatUntilSuccess => 2
    case Conditional => 3
    case Delay => 4
  }

  function DecoratorTypeOf(code: int): (k: Option<DecoratorType>)
    ensures k.Some? <==> 0 <= code < 5
  {
    if code == 0 then Some(Invert)
    else if code == 1 then Some(Repeat)
    else if code == 2 then Some(RepeatUntilSuccess)
    else if code == 3 then Some(Conditional)
    else if code == 4 then Some(Delay)
    else None
  }

  /**
   * A decorator. `param` is the one 32-bit cell shared by the `delay` and
   * `repeat` members of the C union, so writing either sets both.
   */
  datatype Decorator = Decorator(kind: int, param: uint32, refCount: int)

  /**
   * A node. `children` is the child array, absent when C stores NULL; its
   * entries are nullable child pointers. `childCount` is the separate C count.
   */
  datatype Node = Node(
    decorator: Option<DecoratorId>,
    action: Option<ActionId>,
    childCount: int,
    refCount: int,
    role: int,
    children: Option<seq<Option<NodeId>>>)

  /** The child array as a sequence (empty when the array is NULL). */
  function Kids(n: Node): seq<Option<NodeId>>
  {
    if n.children.Some? then n.children.value else []
  }

  /** What createBehaviorNode establishes: an array exactly when the count is positive, of that length. */
  predicate Shaped(n: Node)
  {
    && (n.children.Some? <==> n.childCount > 0)
    && (n.children.Some? ==> |n.children.value| == n.childCount)
  }

  /** All nodes and decorators currently allocated. */
  datatype Heap = Heap(nodes: map<NodeId, Node>, decorators: map<DecoratorId, Decorator>)

  /** A termination measure for nullable node pointers: NULL is below every node. */
  function Rank(p: Option<NodeId>): nat
  {
    if p.Some? then p.value + 1 else 0
  }

  /** A pointer that is NULL or refers to an allocated node. */
  predicate InHeap(h: Heap, p: Option<NodeId>)
  {
    p.Some? ==> p.value in h.nodes
  }

  /** Every child of node `id` has a smaller id (children exist before their parent). */
  predicate ChildrenBelow(n: Node, id: NodeId)
  {
    forall j :: 0 <= j < |Kids(n)| ==> Rank(Kids(n)[j]) <= id
  }

  predicate Ordered(h: Heap)
  {
    forall id :: id in h.nodes ==> ChildrenBelow(h.nodes[id], id)
  }

  /**
   * What executeNode may dereference without checking, for one node: the
   * child array up to the count (every entry NULL or allocated, whether or
   * not the run reaches it), the callback of a leaf, and, for a decorator
   * node with a non-zero count, the decorator. A Repeat decorator with
   * count 0 returns an uninitialised variable, so it is excluded here.
   */
  predicate NodeRunnable(h: Heap, id: NodeId, n: Node)
  {
    && Shaped(n)
    && ChildrenBelow(n, id)
    && (forall j :: 0 <= j < |Kids(n)| ==> InHeap(h, Kids(n)[j]))
    && (NodeTypeOf(n.role) == Some(Action) || NodeTypeOf(n.role) == Some(Condition) ==> n.action.Some?)
    && (NodeTypeOf(n.role) == Some(Decorated) && n.childCount != 0 ==>
          && n.childCount > 0
          && n.decorator.Some?
          && n.decorator.value in h.decorators
          && (DecoratorTypeOf(h.decorators[n.decorator.value].kind) == Some(Repeat) ==>
                h.decorators[n.decorator.value].param >= 1))
  }

  /** Every node of the heap is runnable. */
  predicate Runnable(h: Heap)
  {
    forall id :: id in h.nodes ==> NodeRunnable(h, id, h.nodes[id])
  }

  /**
   * A sufficient condition for executeNode(p): `p` is NULL, or it and every
   * node reachable from it through the child arrays is allocated and
   * runnable. This covers more than a run dereferences, since it includes
   * children that a short-circuit or a branch never reaches. Nodes that `p`
   * cannot reach may be anything, freed children of theirs included.
   */
  predicate RunnableFrom(h: Heap, p: Option<NodeId>)
    decreases Rank(p)
  {
    p.Some? ==>
      && p.value in h.nodes
      && NodeRunnable(h, p.value, h.nodes[p.value])
      && forall j :: 0 <= j < |Kids(h.nodes[p.value])| ==> RunnableFrom(h, Kids(h.nodes[p.value])[j])
  }

  /** A heap that is runnable everywhere is runnable from each of its pointers. */
  lemma {:induction false} RunnableEverywhere(h: Heap, p: Option<NodeId>)
    requires Runnable(h) && InHeap(h, p)
    ensures RunnableFrom(h, p)
    decreases Rank(p)
  {
    if p.Some? {
      var n := h.nodes[p.value];
      assert NodeRunnable(h, p.value, n);
      forall j | 0 <= j < |Kids(n)|
        ensures RunnableFrom(h, Kids(n)[j])
      {
        RunnableEverywhere(h, Kids(n)[j]);
      }
    }
  }
}
