/**
 * The structural validators run by createBehaviorNode (BehaviorNodeCheck and
 * the check*Node functions), and the node record createBehaviorNode hands
 * to them. A validator returns the node it was given, or None for NULL.
 */
module Validation {
  import opened Types

  /** Action and Condition nodes: a callback, no child array, a zero count. */
  function CheckLeafNode(n: Node): (r: Option<Node>)
    ensures r.Some? ==> r.value == n
    ensures r.Some? <==> n.action.Some? && n.children.None? && n.childCount == 0
  {
    if n.action.None? then None
    else if n.children.Some? then None
    else if n.childCount != 0 then None
    else Some(n)
  }

  /** Sequence, Selector and Parallel nodes: a child array, no decorator, a non-zero count, no callback. */
  function CheckCompositeNode(n: Node): (r: Option<Node>)
    ensures r.Some? ==> r.value == n
    ensures r.Some? <==> n.children.Some? && n.decorator.None? && n.childCount != 0 && n.action.None?
  {
    if n.children.None? || n.decorator.Some? then None
    else if n.childCount == 0 then None
    else if n.action.Some? then None
    else Some(n)
  }

  /** Decorator nodes: a child array and one to three children; neither the decorator nor the callback is looked at. */
  function CheckDecoratorNode(n: Node): (r: Option<Node>)
    ensures r.Some? ==> r.value == n
    ensures r.Some? <==> n.children.Some? && n.childCount != 0 && n.childCount <= 3
  {
    if n.children.None? then None
    else if n.childCount > 3 || n.childCount == 0 then None
    else Some(n)
  }

  /** Memory nodes are never accepted. */
  function CheckMemoryNode(n: Node): (r: Option<Node>)
    ensures r.None?
  {
    None
  }

  function BehaviorNodeCheck(role: int, n: Node): (r: Option<Node>)
    ensures r.Some? ==> r.value == n
  {
    match NodeTypeOf(role)
    case Some(Action) => CheckLeafNode(n)
    case Some(Condition) => CheckLeafNode(n)
    case Some(Sequence) => CheckCompositeNode(n)
    case Some(Selector) => CheckCompositeNode(n)
    case Some(Parallel) => CheckCompositeNode(n)
    case Some(Decorated) => CheckDecoratorNode(n)
    case Some(Memory) => CheckMemoryNode(n)
    case None => None
  }

  /** The children createBehaviorNode reads from the caller's array: the first `childCount`, or none. */
  function Offered(children: seq<Option<NodeId>>, childCount: int): (s: seq<Option<NodeId>>)
    requires childCount <= |children|
    ensures |s| == if childCount > 0 then childCount else 0
    ensures forall j :: 0 <= j < |s| ==> s[j] == children[j]
  {
    if childCount > 0 then children[..childCount] else []
  }

  /**
   * The node createBehaviorNode builds before validating it: the role, the
   * callback and the count as given, the reference count 0, a copy of the
   * offered children, and no decorator.
   */
  function Candidate(children: seq<Option<NodeId>>, childCount: int, role: int, action: Option<ActionId>): (n: Node)
    requires childCount <= |children|
    ensures Shaped(n)
    ensures Kids(n) == Offered(children, childCount)
    ensures n.refCount == 0 && n.decorator.None?
    ensures n.role == role && n.action == action && n.childCount == childCount
  {
    Node(None, action, childCount, 0, role,
         if childCount > 0 then Some(children[..childCount]) else None)
  }

  /**
   * Which (role, callback, count) triples the validators let through, read
   * off the role descriptions: a leaf has a callback and no children, a
   * composite has children and no callback, a decorator node has one to
   * three children, and nothing else is a node.
   */
  predicate Accepts(role: int, action: Option<ActionId>, childCount: int)
  {
    match NodeTypeOf(role)
    case Some(Action) => action.Some? && childCount == 0
    case Some(Condition) => action.Some? && childCount == 0
    case Some(Sequence) => childCount > 0 && action.None?
    case Some(Selector) => childCount > 0 && action.None?
    case Some(Parallel) => childCount > 0 && action.None?
    case Some(Decorated) => 1 <= childCount <= 3
    case _ => false
  }

  /** A node that passed validation when it was built (the decorator is attached only later). */
  predicate Admitted(n: Node)
  {
    Shaped(n) && Accepts(n.role, n.action, n.childCount)
  }

  /**
   * The validators, applied to what createBehaviorNode builds, accept
   * exactly the triples of the table; an accepted node is the candidate
   * itself, and a rejected one is NULL.
   */
  lemma AcceptanceTable(children: seq<Option<NodeId>>, childCount: int, role: int, action: Option<ActionId>)
    requires childCount <= |children|
    ensures var r := BehaviorNodeCheck(role, Candidate(children, childCount, role, action));
      && (r.Some? ==> r.value == Candidate(children, childCount, role, action))
      && (r.Some? <==> Accepts(role, action, childCount))
    ensures Accepts(role, action, childCount) ==> Admitted(Candidate(children, childCount, role, action))
  {
  }

  /**
   * The Parallel validator's comment asks for exactly one child, but the code
   * accepts any positive number: a Parallel node over two children passes.
   */
  lemma ParallelAcceptsSeveralChildren(a: NodeId, b: NodeId)
    ensures BehaviorNodeCheck(NodeTypeCode(Parallel),
              Candidate([Some(a), Some(b)], 2, NodeTypeCode(Parallel), None)).Some?
  {
  }

  /** An admitted node is one the table accepts, whatever decorator is attached afterwards. */
  lemma AdmittedShape(n: Node)
    requires Admitted(n)
    ensures NodeTypeOf(n.role).Some? && NodeTypeOf(n.role) != Some(Memory)
    ensures NodeTypeOf(n.role) == Some(Action) || NodeTypeOf(n.role) == Some(Condition) ==>
              n.action.Some? && n.childCount == 0 && Kids(n) == []
    ensures NodeTypeOf(n.role) == Some(Sequence) || NodeTypeOf(n.role) == Some(Selector)
            || NodeTypeOf(n.role) == Some(Parallel) ==>
              n.action.None? && n.childCount > 0 && |Kids(n)| == n.childCount
    ensures NodeTypeOf(n.role) == Some(Decorated) ==> 1 <= n.childCount <= 3 && |Kids(n)| == n.childCount
  {
  }
}
