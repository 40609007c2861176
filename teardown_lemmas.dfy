/**
 * What freeBehaviorTree does to reference counts. Children may be shared,
 * and the walk descends into a child on every visit, so a node is released
 * once per path that leads to it from the argument. The paths are counted in
 * the child graph as it was before the walk (freeing never changes a
 * surviving node's children).
 */
module TeardownLemmas {
  import opened Types
  import opened Teardown

  /** Child arrays by node id. */
  type Graph = map<NodeId, seq<Option<NodeId>>>

  /** Every node of `h` has the children `G` gives it. */
  predicate Follows(h: Heap, G: Graph)
  {
    forall k :: k in h.nodes ==> k in G && G[k] == Kids(h.nodes[k])
  }

  predicate GraphOrdered(G: Graph)
  {
    forall k, j :: k in G && 0 <= j < |G[k]| ==> Rank(G[k][j]) <= k
  }

  /** The child graph of a heap. */
  function GraphOf(h: Heap): (G: Graph)
    requires Ordered(h)
    ensures Follows(h, G) && GraphOrdered(G)
  {
    map k | k in h.nodes :: Kids(h.nodes[k])
  }

  lemma FollowsShrinks(h: Heap, h2: Heap, G: Graph)
    requires Follows(h, G) && Shrinks(h, h2)
    ensures Follows(h2, G)
  {
    forall k | k in h2.nodes
      ensures G[k] == Kids(h2.nodes[k])
    {
      assert h2.nodes[k].children == h.nodes[k].children;
    }
  }

  /** The number of paths from `p` to node `k` in `G`, the empty path included. */
  function PathsFrom(G: Graph, p: Option<NodeId>, k: NodeId): nat
    requires GraphOrdered(G)
    decreases Rank(p), 1
  {
    if p.None? || p.value !in G then 0
    else (if p.value == k then 1 else 0) + PathsKids(G, p.value, G[p.value], k, 0)
  }

  /** The number of paths to `k` through the entries of `kids` from index `i`. */
  function PathsKids(G: Graph, bound: nat, kids: seq<Option<NodeId>>, k: NodeId, i: nat): nat
    requires GraphOrdered(G) && i <= |kids|
    requires forall j :: 0 <= j < |kids| ==> Rank(kids[j]) <= bound
    decreases bound + 1, 0, |kids| - i
  {
    if i == |kids| then 0 else PathsFrom(G, kids[i], k) + PathsKids(G, bound, kids, k, i + 1)
  }

  /** No path climbs to a larger id. */
  lemma {:induction false} PathsBelow(G: Graph, p: Option<NodeId>, k: NodeId)
    requires GraphOrdered(G) && Rank(p) <= k
    ensures PathsFrom(G, p, k) == 0
    decreases Rank(p), 1
  {
    if p.Some? && p.value in G {
      PathsKidsBelow(G, p.value, G[p.value], k, 0);
    }
  }

  lemma {:induction false} PathsKidsBelow(G: Graph, bound: nat, kids: seq<Option<NodeId>>, k: NodeId, i: nat)
    requires GraphOrdered(G) && i <= |kids|
    requires forall j :: 0 <= j < |kids| ==> Rank(kids[j]) <= bound
    requires bound <= k
    ensures PathsKids(G, bound, kids, k, i) == 0
    decreases bound + 1, 0, |kids| - i
  {
    if i < |kids| {
      PathsBelow(G, kids[i], k);
      PathsKidsBelow(G, bound, kids, k, i + 1);
    }
  }

  /** A walk that returns 1 never reaches a node that was already gone when it started. */
  lemma {:induction false} AbsentUnreached(h: Heap, G: Graph, p: Option<NodeId>, k: NodeId, h2: Heap)
    requires Ordered(h) && GraphOrdered(G) && Follows(h, G)
    requires FreeSpec(h, p) == Released(h2, 1)
    requires k !in h.nodes
    ensures PathsFrom(G, p, k) == 0
    decreases Rank(p), 1
  {
    var id := p.value;
    var o := FreeKids(h, id, Kids(h.nodes[id]), 0);
    AbsentKidsUnreached(h, G, id, Kids(h.nodes[id]), 0, k, o.heap);
  }

  lemma {:induction false} AbsentKidsUnreached(h: Heap, G: Graph, bound: nat, kids: seq<Option<NodeId>>, i: nat, k: NodeId, h2: Heap)
    requires Ordered(h) && GraphOrdered(G) && Follows(h, G) && i <= |kids|
    requires forall j :: 0 <= j < |kids| ==> Rank(kids[j]) <= bound
    requires FreeKids(h, bound, kids, i) == Released(h2, 1)
    requires k !in h.nodes
    ensures PathsKids(G, bound, kids, k, i) == 0
    decreases bound + 1, 0, |kids| - i
  {
    if i < |kids| {
      var o := FreeSpec(h, kids[i]);
      AbsentUnreached(h, G, kids[i], k, o.heap);
      FollowsShrinks(h, o.heap, G);
      AbsentKidsUnreached(o.heap, G, bound, kids, i + 1, k, h2);
    }
  }

  /**
   * Node `k`, with count c in `h`, after `P` releases: it is freed exactly
   * when P >= 1 and c == P, it survives with count c - P otherwise, it was
   * never released while already at a positive count below P (which would
   * have been a use after free), and with P == 0 it is untouched.
   */
  ghost predicate Counted(h: Heap, h2: Heap, k: NodeId, P: nat)
    requires k in h.nodes
  {
    var c := h.nodes[k].refCount;
    && (k in h2.nodes <==> !(P >= 1 && c == P))
    && (k in h2.nodes ==> h2.nodes[k].refCount == c - P)
    && !(1 <= c < P)
    && (P == 0 ==> k in h2.nodes && h2.nodes[k] == h.nodes[k])
  }

  lemma {:induction false} FreeCounts(h: Heap, G: Graph, p: Option<NodeId>, h2: Heap)
    requires Ordered(h) && GraphOrdered(G) && Follows(h, G)
    requires FreeSpec(h, p) == Released(h2, 1)
    ensures forall k :: k in h.nodes ==> Counted(h, h2, k, PathsFrom(G, p, k))
    decreases Rank(p), 1
  {
    var id := p.value;
    var kids := Kids(h.nodes[id]);
    var h1 := FreeKids(h, id, kids, 0).heap;
    KidsCount(h, G, id, kids, 0, h1);
    ReleaseSelfShrinks(h1, id);
    forall k | k in h.nodes
      ensures Counted(h, h2, k, PathsFrom(G, p, k))
    {
      assert PathsFrom(G, p, k) == (if id == k then 1 else 0) + PathsKids(G, id, kids, k, 0);
      if k == id {
        PathsKidsBelow(G, id, kids, k, 0);
        assert h1.nodes[id] == h.nodes[id];
      }
    }
  }

  lemma {:induction false} KidsCount(h: Heap, G: Graph, bound: nat, kids: seq<Option<NodeId>>, i: nat, h2: Heap)
    requires Ordered(h) && GraphOrdered(G) && Follows(h, G) && i <= |kids|
    requires forall j :: 0 <= j < |kids| ==> Rank(kids[j]) <= bound
    requires FreeKids(h, bound, kids, i) == Released(h2, 1)
    ensures forall k :: k in h.nodes ==> Counted(h, h2, k, PathsKids(G, bound, kids, k, i))
    decreases bound + 1, 0, |kids| - i
  {
    if i < |kids| {
      var h1 := FreeSpec(h, kids[i]).heap;
      FreeCounts(h, G, kids[i], h1);
      FollowsShrinks(h, h1, G);
      KidsCount(h1, G, bound, kids, i + 1, h2);
      forall k | k in h.nodes
        ensures Counted(h, h2, k, PathsKids(G, bound, kids, k, i))
      {
        if k !in h1.nodes {
          AbsentKidsUnreached(h1, G, bound, kids, i + 1, k, h2);
        }
      }
    }
  }

  /**
   * The counting law of freeBehaviorTree: a complete teardown (result 1)
   * lowers each node's count by the number of paths that lead to it from
   * the argument, frees a node exactly when that number is positive and its
   * count equals it, and leaves every node it cannot reach exactly as it was.
   */
  lemma FreeReleasesOncePerPath(h: Heap, root: Option<NodeId>, h2: Heap)
    requires Ordered(h)
    requires FreeSpec(h, root) == Released(h2, 1)
    ensures h2.nodes.Keys <= h.nodes.Keys
    ensures forall k :: k in h.nodes ==> Counted(h, h2, k, PathsFrom(GraphOf(h), root, k))
  {
    FreeCounts(h, GraphOf(h), root, h2);
  }

  /**
   * A root nobody adopted has count 0: a complete teardown leaves it
   * allocated with count -1.
   */
  lemma UnadoptedRootSurvives(h: Heap, r: NodeId, h2: Heap)
    requires Ordered(h) && r in h.nodes && h.nodes[r].refCount == 0
    requires FreeSpec(h, Some(r)) == Released(h2, 1)
    ensures r in h2.nodes && h2.nodes[r].refCount == -1
  {
    var G := GraphOf(h);
    FreeCounts(h, G, Some(r), h2);
    PathsKidsBelow(G, r, G[r], r, 0);
    assert PathsFrom(G, Some(r), r) == 1;
    assert Counted(h, h2, r, 1);
  }

  /** A child loop that finishes with 1 released child `i` with 1 and went on from there. */
  lemma CompleteKidsStep(h: Heap, bound: nat, kids: seq<Option<NodeId>>, i: nat, h2: Heap)
    requires Ordered(h) && i < |kids|
    requires forall j :: 0 <= j < |kids| ==> Rank(kids[j]) <= bound
    requires FreeKids(h, bound, kids, i) == Released(h2, 1)
    ensures kids[i].Some?
    ensures var o := FreeSpec(h, kids[i]);
      o.Released? && o.result == 1 && FreeKids(o.heap, bound, kids, i + 1) == Released(h2, 1)
  {
    assert kids[i].Some?;
    FreeKidsStep(h, bound, kids, i, FreeSpec(h, kids[i]));
  }

  /** A complete teardown met no NULL child at the argument. */
  lemma {:induction false} CompleteKidsNonNull(h: Heap, bound: nat, kids: seq<Option<NodeId>>, i: nat, h2: Heap)
    requires Ordered(h) && i <= |kids|
    requires forall j :: 0 <= j < |kids| ==> Rank(kids[j]) <= bound
    requires FreeKids(h, bound, kids, i) == Released(h2, 1)
    ensures forall j :: i <= j < |kids| ==> kids[j].Some?
    decreases |kids| - i
  {
    if i < |kids| {
      CompleteKidsStep(h, bound, kids, i, h2);
      match FreeSpec(h, kids[i])
      case UseAfterFree => assert false;
      case Released(h1, _) =>
        CompleteKidsNonNull(h1, bound, kids, i + 1, h2);
        NonNullFrom(kids, i);
    }
  }

  /** A non-NULL entry in front of non-NULL entries. */
  lemma NonNullFrom(kids: seq<Option<NodeId>>, i: nat)
    requires i < |kids| && kids[i].Some?
    requires forall j :: i + 1 <= j < |kids| ==> kids[j].Some?
    ensures forall j :: i <= j < |kids| ==> kids[j].Some?
  {
  }

  /**
   * The outcomes of freeBehaviorTree at the argument itself: NULL gives 0
   * and changes nothing; a result of 0 leaves the argument's own record
   * untouched (the walk stopped in its children); a result of 1 means every
   * child pointer of the argument was non-NULL.
   */
  lemma FreeOutcomeAtRoot(h: Heap, node: Option<NodeId>)
    requires Ordered(h)
    ensures node.None? ==> FreeSpec(h, node) == Released(h, 0)
    ensures var o := FreeSpec(h, node);
      node.Some? && o.Released? && o.result == 0 ==>
        node.value in o.heap.nodes && o.heap.nodes[node.value] == h.nodes[node.value]
    ensures var o := FreeSpec(h, node);
      node.Some? && o.Released? && o.result == 1 ==>
        forall j :: 0 <= j < |Kids(h.nodes[node.value])| ==> Kids(h.nodes[node.value])[j].Some?
  {
    if node.Some? && node.value in h.nodes {
      var id := node.value;
      var o := FreeKids(h, id, Kids(h.nodes[id]), 0);
      if o.Released? && o.result == 1 {
        CompleteKidsNonNull(h, id, Kids(h.nodes[id]), 0, o.heap);
      }
    }
  }

  /**
   * One release of node `id` with a live decorator `d`: the decorator's
   * count drops by one and it is freed, with the link cleared, exactly when
   * it reaches 0; a decorator at count 0 goes to -1 and stays. The node's
   * own count then drops by one, and it is freed exactly when that reaches 0.
   */
  lemma ReleaseSelfCounts(h: Heap, id: NodeId)
    requires id in h.nodes
    requires h.nodes[id].decorator.Some? ==> h.nodes[id].decorator.value in h.decorators
    ensures var o := ReleaseSelf(h, id);
      && o.Released?
      && (id in o.heap.nodes <==> h.nodes[id].refCount != 1)
      && (id in o.heap.nodes ==> o.heap.nodes[id].refCount == h.nodes[id].refCount - 1)
    ensures var o := ReleaseSelf(h, id);
      h.nodes[id].decorator.Some? ==>
        var d := h.nodes[id].decorator.value;
        var c := h.decorators[d].refCount;
        && (d in o.heap.decorators <==> c != 1)
        && (d in o.heap.decorators ==> o.heap.decorators[d].refCount == c - 1)
        && (id in o.heap.nodes ==> (o.heap.nodes[id].decorator.None? <==> c == 1))
    ensures var o := ReleaseSelf(h, id);
      h.nodes[id].decorator.None? ==> o.heap.decorators == h.decorators
  {
  }
}
