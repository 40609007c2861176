/**
 * freeBehaviorTree as a function on heaps. A walk that would dereference a
 * node or decorator that is no longer allocated (freed by an earlier step of
 * the same walk or by an earlier teardown) yields UseAfterFree; otherwise it
 * yields the new heap and the C return value.
 */
module Teardown {
  import opened Types

  datatype FreeOut = Released(heap: Heap, result: int) | UseAfterFree

  /**
   * `h2` is `h` after some releases: nodes and decorators may be gone, and a
   * surviving node or decorator differs at most in its reference count and,
   * for a node, in a decorator link that has been cleared.
   */
  predicate Shrinks(h: Heap, h2: Heap)
  {
    && h2.nodes.Keys <= h.nodes.Keys
    && h2.decorators.Keys <= h.decorators.Keys
    && (forall k :: k in h2.nodes ==>
          && h2.nodes[k] == h.nodes[k].(refCount := h2.nodes[k].refCount, decorator := h2.nodes[k].decorator)
          && (h2.nodes[k].decorator == h.nodes[k].decorator || h2.nodes[k].decorator.None?))
    && (forall d :: d in h2.decorators ==> h2.decorators[d] == h.decorators[d].(refCount := h2.decorators[d].refCount))
  }

  /** Releasing never changes a surviving node's children, so the id order survives. */
  lemma ShrinksKeepsOrder(h: Heap, h2: Heap)
    requires Ordered(h) && Shrinks(h, h2)
    ensures Ordered(h2)
  {
    forall k | k in h2.nodes
      ensures ChildrenBelow(h2.nodes[k], k)
    {
      assert Kids(h2.nodes[k]) == Kids(h.nodes[k]);
    }
  }

  /** Nodes with id `bound` or more are untouched. */
  predicate Above(h: Heap, h2: Heap, bound: nat)
  {
    forall k :: k in h.nodes && k >= bound ==> k in h2.nodes && h2.nodes[k] == h.nodes[k]
  }

  /**
   * The decorator part of releasing node `id`: one reference to its
   * decorator is dropped; at exactly 0 the decorator is freed and the
   * node's link to it cleared.
   */
  function DropDecorator(h: Heap, id: NodeId): (h2: Heap)
    requires id in h.nodes
    requires h.nodes[id].decorator.Some? ==> h.nodes[id].decorator.value in h.decorators
    ensures id in h2.nodes
  {
    var n := h.nodes[id];
    if n.decorator.None? then h
    else
      var d := n.decorator.value;
      var c := h.decorators[d].refCount - 1;
      if c == 0 then Heap(h.nodes[id := n.(decorator := None)], h.decorators - {d})
      else h.(decorators := h.decorators[d := h.decorators[d].(refCount := c)])
  }

  /** The node part of releasing node `id`: one reference dropped, the node freed at exactly 0. */
  function DropNode(h: Heap, id: NodeId): Heap
    requires id in h.nodes
  {
    var n := h.nodes[id];
    if n.refCount - 1 == 0 then h.(nodes := h.nodes - {id})
    else h.(nodes := h.nodes[id := n.(refCount := n.refCount - 1)])
  }

  /**
   * The end of freeBehaviorTree for node `id`, once its children are done:
   * the decorator's count goes down by one and it is freed (and unlinked) at
   * exactly 0; then the node's count goes down by one and it is freed at
   * exactly 0. A link to a decorator that is already freed is a use after free.
   */
  function ReleaseSelf(h: Heap, id: NodeId): (o: FreeOut)
    requires id in h.nodes
    ensures o.Released? ==> o.result == 1
  {
    var n := h.nodes[id];
    if n.decorator.Some? && n.decorator.value !in h.decorators then UseAfterFree
    else Released(DropNode(DropDecorator(h, id), id), 1)
  }

  /** Releasing node `id` touches no other node, and frees or decrements only what it points at. */
  lemma ReleaseSelfShrinks(h: Heap, id: NodeId)
    requires id in h.nodes
    ensures var o := ReleaseSelf(h, id);
      o.Released? ==> && Shrinks(h, o.heap) && Above(h, o.heap, id + 1)
                      && (forall k :: k in h.nodes && k != id ==> k in o.heap.nodes && o.heap.nodes[k] == h.nodes[k])
  {
  }

  /**
   * freeBehaviorTree(node). The C loop runs `i < child_count` over the child
   * array; the walk here runs over the whole array, which is the same on
   * every node createBehaviorNode stores (`Shaped`: the array has exactly
   * `child_count` entries, or is absent with a count of 0 or less).
   */
  function FreeSpec(h: Heap, node: Option<NodeId>): (o: FreeOut)
    requires Ordered(h)
    ensures o.Released? ==> && (o.result == 0 || o.result == 1) && Ordered(o.heap)
                            && Shrinks(h, o.heap) && Above(h, o.heap, Rank(node))
    decreases Rank(node), 1
  {
    if node.None? then Released(h, 0)
    else if node.value !in h.nodes then UseAfterFree
    else
      var id := node.value;
      match FreeKids(h, id, Kids(h.nodes[id]), 0)
      case UseAfterFree => UseAfterFree
      case Released(h1, r) =>
        if r == 0 then Released(h1, 0)
        else
          var o := ReleaseSelf(h1, id);
          ReleaseSelfShrinks(h1, id);
          ShrinksKeepsOrder(h1, if o.Released? then o.heap else h1);
          o
  }

  /**
   * The loop of freeBehaviorTree over the children `kids` from index `i`:
   * stop with 0 at a NULL child or at a child whose release returns 0.
   */
  function FreeKids(h: Heap, bound: nat, kids: seq<Option<NodeId>>, i: nat): (o: FreeOut)
    requires Ordered(h) && i <= |kids|
    requires forall j :: 0 <= j < |kids| ==> Rank(kids[j]) <= bound
    ensures o.Released? ==> && (o.result == 0 || o.result == 1) && Ordered(o.heap)
                            && Shrinks(h, o.heap) && Above(h, o.heap, bound)
    decreases bound + 1, 0, |kids| - i
  {
    if i == |kids| then Released(h, 1)
    else if kids[i].None? then Released(h, 0)
    else
      match FreeSpec(h, kids[i])
      case UseAfterFree => UseAfterFree
      case Released(h1, r) =>
        if r == 0 then Released(h1, 0)
        else
          FreeKids(h1, bound, kids, i + 1)
  }

  /** One turn of the child loop, for callers that walk it step by step. */
  lemma FreeKidsStep(h: Heap, bound: nat, kids: seq<Option<NodeId>>, i: nat, o: FreeOut)
    requires Ordered(h) && i < |kids|
    requires forall j :: 0 <= j < |kids| ==> Rank(kids[j]) <= bound
    requires kids[i].Some? && o == FreeSpec(h, kids[i]) && o.Released?
    ensures FreeKids(h, bound, kids, i) == if o.result == 0 then Released(o.heap, 0) else FreeKids(o.heap, bound, kids, i + 1)
  {
  }

  /** What is left of freeBehaviorTree once every child is released. */
  lemma FreeSpecAfterKids(h: Heap, id: NodeId, h1: Heap)
    requires Ordered(h) && id in h.nodes
    requires FreeKids(h, id, Kids(h.nodes[id]), 0) == Released(h1, 1)
    ensures id in h1.nodes && Ordered(h1)
    ensures FreeSpec(h, Some(id)) == ReleaseSelf(h1, id)
  {
  }
}
