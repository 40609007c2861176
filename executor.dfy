/**
 * The executor of BehaviorTree.c. Each C routine is a method proved equal to
 * a specification function of the same shape (Exec, SeqFrom, SelFrom,
 * RunSpan/Tally, Decorate, RepeatFrom, UntilFailure); ExecutorLemmas states
 * what those functions mean.
 *
 * Callbacks are the only foreign code. A `World<S>` gives, for an abstract
 * environment state and a callback, the int the callback returns and the
 * state it leaves behind, so stateful callbacks are covered. Every callback
 * call and every pause of a Delay decorator is recorded in a trace.
 *
 * A RepeatUntilSuccess loop has no bound in C. Here `fuel` bounds how many
 * times each such loop may go round again after its first pass; a run that
 * would exceed it yields OutOfFuel, so every result below holds "if the
 * run terminates within that bound". Nothing else consumes fuel.
 */
module Executor {
  import opened Types

  datatype Event =
    | Invoked(node: NodeId, callback: ActionId, result: int)  // a leaf's callback returned `result`
    | Slept(seconds: uint32)                                  // sleep(seconds) in a Delay decorator

  datatype Outcome<S> = Done(result: int, state: S, trace: seq<Event>) | OutOfFuel

  /** A run of several nodes one after another: one result per node. */
  datatype Runs<S> = Ran(results: seq<int>, state: S, trace: seq<Event>) | RanOutOfFuel

  type World<!S> = (S, ActionId) -> (int, S)

  /** `o`, preceded by the events `t`. */
  function Then<S>(t: seq<Event>, o: Outcome<S>): Outcome<S>
  {
    match o
    case OutOfFuel => OutOfFuel
    case Done(r, s, t2) => Done(r, s, t + t2)
  }

  /** `runs`, preceded by the results `rs` and the events `t`. */
  function Prepend<S>(rs: seq<int>, t: seq<Event>, runs: Runs<S>): Runs<S>
  {
    match runs
    case RanOutOfFuel => RanOutOfFuel
    case Ran(rs2, s, t2) => Ran(rs + rs2, s, t + t2)
  }

  /** Calling the callback `a` of leaf `id`. */
  function Invoke<S>(w: World<S>, id: NodeId, a: ActionId, s: S): Outcome<S>
  {
    var (r, s1) := w(s, a);
    Done(r, s1, [Invoked(id, a, r)])
  }

  /** The number of zero results (the variable the C code calls successCount). */
  function Failures(rs: seq<int>): (n: nat)
    ensures n <= |rs|
  {
    if rs == [] then 0
    else Failures(rs[..|rs| - 1]) + (if rs[|rs| - 1] == 0 then 1 else 0)
  }

  /** The end of parallelNode: 1 exactly when the tally equals child_count. */
  function Tally<S>(runs: Runs<S>, childCount: int): Outcome<S>
  {
    match runs
    case RanOutOfFuel => OutOfFuel
    case Ran(rs, s, t) => Done(if Failures(rs) == childCount then 1 else 0, s, t)
  }

  /** A decorator node with children and a decorator of kind `k`. */
  predicate WrapsWith(h: Heap, id: NodeId, k: DecoratorType)
  {
    && id in h.nodes
    && NodeTypeOf(h.nodes[id].role) == Some(Decorated)
    && h.nodes[id].childCount != 0
    && h.nodes[id].decorator.Some?
    && h.nodes[id].decorator.value in h.decorators
    && DecoratorTypeOf(h.decorators[h.nodes[id].decorator.value].kind) == Some(k)
  }

  // ---------------------------------------------------------------------
  // Specification functions
  // ---------------------------------------------------------------------

  /** executeNode. NULL, Memory and unknown roles yield 0. */
  function Exec<S>(h: Heap, w: World<S>, node: Option<NodeId>, s: S, fuel: nat): Outcome<S>
    requires RunnableFrom(h, node)
    decreases Rank(node), 3, 0
  {
    if node.None? then Done(0, s, [])
    else
      var id := node.value;
      var n := h.nodes[id];
      match NodeTypeOf(n.role)
      case Some(Action) => Invoke(w, id, n.action.value, s)
      case Some(Condition) => Invoke(w, id, n.action.value, s)
      case Some(Sequence) => SeqFrom(h, w, id, 0, s, fuel)
      case Some(Selector) => SelFrom(h, w, id, 0, s, fuel)
      case Some(Decorated) => Decorate(h, w, id, s, fuel)
      case Some(Parallel) => Tally(RunSpan(h, w, id, 0, |Kids(n)|, s, fuel), n.childCount)
      case _ => Done(0, s, [])
  }

  /** sequenceNode from child `i` on: stop with 0 at the first child returning 0. */
  function SeqFrom<S>(h: Heap, w: World<S>, id: NodeId, i: nat, s: S, fuel: nat): Outcome<S>
    requires RunnableFrom(h, Some(id)) && i <= |Kids(h.nodes[id])|
    decreases id + 1, 2, |Kids(h.nodes[id])| - i
  {
    var kids := Kids(h.nodes[id]);
    if i == |kids| then Done(1, s, [])
    else
      var o := Exec(h, w, kids[i], s, fuel);
      if o.OutOfFuel? then OutOfFuel
      else if o.result == 0 then Done(0, o.state, o.trace)
      else Then(o.trace, SeqFrom(h, w, id, i + 1, o.state, fuel))
  }

  /** selectorNode from child `i` on: stop with 1 at the first child returning non-zero. */
  function SelFrom<S>(h: Heap, w: World<S>, id: NodeId, i: nat, s: S, fuel: nat): Outcome<S>
    requires RunnableFrom(h, Some(id)) && i <= |Kids(h.nodes[id])|
    decreases id + 1, 2, |Kids(h.nodes[id])| - i
  {
    var kids := Kids(h.nodes[id]);
    if i == |kids| then Done(0, s, [])
    else
      var o := Exec(h, w, kids[i], s, fuel);
      if o.OutOfFuel? then OutOfFuel
      else if o.result != 0 then Done(1, o.state, o.trace)
      else Then(o.trace, SelFrom(h, w, id, i + 1, o.state, fuel))
  }

  /** Executes children `i` to `m - 1` of node `id` once each, in order, whatever the results. */
  function RunSpan<S>(h: Heap, w: World<S>, id: NodeId, i: nat, m: nat, s: S, fuel: nat): (r: Runs<S>)
    requires RunnableFrom(h, Some(id)) && i <= m <= |Kids(h.nodes[id])|
    ensures r.Ran? ==> |r.results| == m - i
    decreases id + 1, 2, m - i
  {
    if i == m then Ran([], s, [])
    else
      var o := Exec(h, w, Kids(h.nodes[id])[i], s, fuel);
      if o.OutOfFuel? then RanOutOfFuel
      else Prepend([o.result], o.trace, RunSpan(h, w, id, i + 1, m, o.state, fuel))
  }

  /** decoratorNode and the five decorator routines. */
  function Decorate<S>(h: Heap, w: World<S>, id: NodeId, s: S, fuel: nat): Outcome<S>
    requires RunnableFrom(h, Some(id)) && NodeTypeOf(h.nodes[id].role) == Some(Decorated)
    decreases id + 1, 2, 0
  {
    var n := h.nodes[id];
    if n.childCount == 0 then Done(0, s, [])
    else
      var d := h.decorators[n.decorator.value];
      var kids := Kids(n);
      match DecoratorTypeOf(d.kind)
      case Some(Invert) =>
        var o := Exec(h, w, kids[0], s, fuel);
        if o.OutOfFuel? then OutOfFuel else Done(if o.result == 0 then 1 else 0, o.state, o.trace)
      case Some(Repeat) => RepeatFrom(h, w, id, d.param, s, fuel)
      case Some(RepeatUntilSuccess) => UntilFailure(h, w, id, fuel, s, fuel)
      case Some(Conditional) =>
        var o := Exec(h, w, kids[0], s, fuel);
        if o.OutOfFuel? then OutOfFuel
        else if n.childCount == 1 then o
        else if o.result != 0 then Then(o.trace, Exec(h, w, kids[1], o.state, fuel))
        else if n.childCount < 3 then Done(0, o.state, o.trace)
        else Then(o.trace, Exec(h, w, kids[2], o.state, fuel))
      case Some(Delay) =>
        var o := Exec(h, w, kids[0], s, fuel);
        if o.OutOfFuel? then OutOfFuel
        else Done(o.result, o.state, if o.result == 1 then o.trace + [Slept(d.param)] else o.trace)
      case None => Done(0, s, [])
  }

  /** repeatDecorator with `k` passes still to go: the result of the last pass. */
  function RepeatFrom<S>(h: Heap, w: World<S>, id: NodeId, k: nat, s: S, fuel: nat): Outcome<S>
    requires RunnableFrom(h, Some(id)) && NodeTypeOf(h.nodes[id].role) == Some(Decorated)
    requires h.nodes[id].childCount != 0 && k >= 1
    decreases id + 1, 1, k
  {
    var o := Exec(h, w, Kids(h.nodes[id])[0], s, fuel);
    if o.OutOfFuel? then OutOfFuel
    else if k == 1 then o
    else Then(o.trace, RepeatFrom(h, w, id, k - 1, o.state, fuel))
  }

  /**
   * repeatUntilSuccessDecorator, which despite its name goes round again
   * while child 0 returns non-zero and returns the 0 that stops it;
   * `budget` is how many more rounds the fuel allows.
   */
  function UntilFailure<S>(h: Heap, w: World<S>, id: NodeId, budget: nat, s: S, fuel: nat): Outcome<S>
    requires RunnableFrom(h, Some(id)) && NodeTypeOf(h.nodes[id].role) == Some(Decorated)
    requires h.nodes[id].childCount != 0
    decreases id + 1, 1, budget
  {
    var o := Exec(h, w, Kids(h.nodes[id])[0], s, fuel);
    if o.OutOfFuel? then OutOfFuel
    else if o.result == 0 then o
    else if budget == 0 then OutOfFuel
    else Then(o.trace, UntilFailure(h, w, id, budget - 1, o.state, fuel))
  }

  /** One step of SeqFrom. */
  lemma SeqFromStep<S>(h: Heap, w: World<S>, id: NodeId, i: nat, s: S, fuel: nat, o: Outcome<S>)
    requires RunnableFrom(h, Some(id)) && i < |Kids(h.nodes[id])|
    requires o == Exec(h, w, Kids(h.nodes[id])[i], s, fuel) && o.Done?
    ensures SeqFrom(h, w, id, i, s, fuel)
              == if o.result == 0 then Done(0, o.state, o.trace) else Then(o.trace, SeqFrom(h, w, id, i + 1, o.state, fuel))
  {
  }

  /** One step of SelFrom. */
  lemma SelFromStep<S>(h: Heap, w: World<S>, id: NodeId, i: nat, s: S, fuel: nat, o: Outcome<S>)
    requires RunnableFrom(h, Some(id)) && i < |Kids(h.nodes[id])|
    requires o == Exec(h, w, Kids(h.nodes[id])[i], s, fuel) && o.Done?
    ensures SelFrom(h, w, id, i, s, fuel)
              == if o.result != 0 then Done(1, o.state, o.trace) else Then(o.trace, SelFrom(h, w, id, i + 1, o.state, fuel))
  {
  }

  /** One step of RunSpan. */
  lemma RunSpanStep<S>(h: Heap, w: World<S>, id: NodeId, i: nat, m: nat, s: S, fuel: nat, o: Outcome<S>)
    requires RunnableFrom(h, Some(id)) && i < m <= |Kids(h.nodes[id])|
    requires o == Exec(h, w, Kids(h.nodes[id])[i], s, fuel) && o.Done?
    ensures RunSpan(h, w, id, i, m, s, fuel) == Prepend([o.result], o.trace, RunSpan(h, w, id, i + 1, m, o.state, fuel))
  {
  }

  /** One step of RepeatFrom. */
  lemma RepeatFromStep<S>(h: Heap, w: World<S>, id: NodeId, k: nat, s: S, fuel: nat, o: Outcome<S>)
    requires RunnableFrom(h, Some(id)) && NodeTypeOf(h.nodes[id].role) == Some(Decorated)
    requires h.nodes[id].childCount != 0 && k >= 1
    requires o == Exec(h, w, Kids(h.nodes[id])[0], s, fuel)
    ensures RepeatFrom(h, w, id, k, s, fuel)
              == if o.OutOfFuel? then OutOfFuel else if k == 1 then o else Then(o.trace, RepeatFrom(h, w, id, k - 1, o.state, fuel))
  {
  }

  /** One step of UntilFailure. */
  lemma UntilFailureStep<S>(h: Heap, w: World<S>, id: NodeId, budget: nat, s: S, fuel: nat, o: Outcome<S>)
    requires RunnableFrom(h, Some(id)) && NodeTypeOf(h.nodes[id].role) == Some(Decorated)
    requires h.nodes[id].childCount != 0
    requires o == Exec(h, w, Kids(h.nodes[id])[0], s, fuel)
    ensures UntilFailure(h, w, id, budget, s, fuel)
              == if o.OutOfFuel? then OutOfFuel
                 else if o.result == 0 then o
                 else if budget == 0 then OutOfFuel
                 else Then(o.trace, UntilFailure(h, w, id, budget - 1, o.state, fuel))
  {
  }

  /** The loop invariant of parallelNode, carried over one more child. */
  lemma RunSpanAfter<S>(h: Heap, w: World<S>, id: NodeId, i: nat, s: S, st: S, fuel: nat,
                        rs: seq<int>, tr: seq<Event>, o: Outcome<S>)
    requires RunnableFrom(h, Some(id)) && i < |Kids(h.nodes[id])|
    requires o == Exec(h, w, Kids(h.nodes[id])[i], st, fuel) && o.Done?
    requires RunSpan(h, w, id, 0, |Kids(h.nodes[id])|, s, fuel)
               == Prepend(rs, tr, RunSpan(h, w, id, i, |Kids(h.nodes[id])|, st, fuel))
    ensures RunSpan(h, w, id, 0, |Kids(h.nodes[id])|, s, fuel)
              == Prepend(rs + [o.result], tr + o.trace, RunSpan(h, w, id, i + 1, |Kids(h.nodes[id])|, o.state, fuel))
  {
    var m := |Kids(h.nodes[id])|;
    RunSpanStep(h, w, id, i, m, st, fuel, o);
    PrependTwice(rs, tr, [o.result], o.trace, RunSpan(h, w, id, i + 1, m, o.state, fuel));
  }

  /** parallelNode's loop, when a child runs out of fuel. */
  lemma RunSpanStopped<S>(h: Heap, w: World<S>, id: NodeId, i: nat, s: S, st: S, fuel: nat, rs: seq<int>, tr: seq<Event>)
    requires RunnableFrom(h, Some(id)) && i < |Kids(h.nodes[id])|
    requires Exec(h, w, Kids(h.nodes[id])[i], st, fuel).OutOfFuel?
    requires RunSpan(h, w, id, 0, |Kids(h.nodes[id])|, s, fuel)
               == Prepend(rs, tr, RunSpan(h, w, id, i, |Kids(h.nodes[id])|, st, fuel))
    ensures RunSpan(h, w, id, 0, |Kids(h.nodes[id])|, s, fuel) == RanOutOfFuel
  {
  }

  /** The end of parallelNode's loop: the run is the results the loop saw. */
  lemma RunSpanEnd<S>(h: Heap, w: World<S>, id: NodeId, s: S, st: S, fuel: nat, rs: seq<int>, tr: seq<Event>)
    requires RunnableFrom(h, Some(id))
    requires RunSpan(h, w, id, 0, |Kids(h.nodes[id])|, s, fuel)
               == Prepend(rs, tr, RunSpan(h, w, id, |Kids(h.nodes[id])|, |Kids(h.nodes[id])|, st, fuel))
    ensures RunSpan(h, w, id, 0, |Kids(h.nodes[id])|, s, fuel) == Ran(rs, st, tr)
  {
    assert rs + [] == rs && tr + [] == tr;
  }

  lemma ThenTwice<S>(t1: seq<Event>, t2: seq<Event>, o: Outcome<S>)
    ensures Then(t1, Then(t2, o)) == Then(t1 + t2, o)
  {
    match o
    case OutOfFuel =>
    case Done(_, _, t3) =>
      assert t1 + (t2 + t3) == (t1 + t2) + t3;
  }

  lemma PrependTwice<S>(rs1: seq<int>, t1: seq<Event>, rs2: seq<int>, t2: seq<Event>, runs: Runs<S>)
    ensures Prepend(rs1, t1, Prepend(rs2, t2, runs)) == Prepend(rs1 + rs2, t1 + t2, runs)
  {
    match runs
    case RanOutOfFuel =>
    case Ran(rs3, s3, t3) =>
      assert rs1 + (rs2 + rs3) == (rs1 + rs2) + rs3;
      assert t1 + (t2 + t3) == (t1 + t2) + t3;
  }

  lemma FailuresSnoc(rs: seq<int>, r: int)
    ensures Failures(rs + [r]) == Failures(rs) + (if r == 0 then 1 else 0)
  {
    assert (rs + [r])[..|rs|] == rs;
  }

  // ---------------------------------------------------------------------
  // The C routines
  // ---------------------------------------------------------------------

  method ExecuteNode<S>(h: Heap, w: World<S>, node: Option<NodeId>, s: S, fuel: nat) returns (o: Outcome<S>)
    requires RunnableFrom(h, node)
    ensures o == Exec(h, w, node, s, fuel)
    decreases Rank(node), 3
  {
    if node.None? {
      return Done(0, s, []);
    }
    var id := node.value;
    var n := h.nodes[id];
    match NodeTypeOf(n.role)
    case Some(Action) =>
      var (r, s1) := w(s, n.action.value);
      o := Done(r, s1, [Invoked(id, n.action.value, r)]);
    case Some(Condition) =>
      var (r, s1) := w(s, n.action.value);
      o := Done(r, s1, [Invoked(id, n.action.value, r)]);
    case Some(Sequence) =>
      o := SequenceNode(h, w, id, s, fuel);
    case Some(Selector) =>
      o := SelectorNode(h, w, id, s, fuel);
    case Some(Decorated) =>
      o := DecoratorNode(h, w, id, s, fuel);
    case Some(Parallel) =>
      o := ParallelNode(h, w, id, s, fuel);
    case _ =>
      o := Done(0, s, []);
  }

  method SequenceNode<S>(h: Heap, w: World<S>, id: NodeId, s: S, fuel: nat) returns (o: Outcome<S>)
    requires RunnableFrom(h, Some(id))
    ensures o == SeqFrom(h, w, id, 0, s, fuel)
    decreases id + 1, 2
  {
    var n := h.nodes[id];
    var kids := Kids(n);
    assert NodeRunnable(h, id, n);
    var st, tr := s, [];
    var i := 0;
    while i < n.childCount
      invariant 0 <= i <= |kids| && |kids| == if n.childCount > 0 then n.childCount else 0
      invariant Then(tr, SeqFrom(h, w, id, i, st, fuel)) == SeqFrom(h, w, id, 0, s, fuel)
    {
      var r := ExecuteNode(h, w, kids[i], st, fuel);
      if r.OutOfFuel? {
        return OutOfFuel;
      }
      SeqFromStep(h, w, id, i, st, fuel, r);
      ThenTwice(tr, r.trace, SeqFrom(h, w, id, i + 1, r.state, fuel));
      if r.result == 0 {
        return Done(0, r.state, tr + r.trace);
      }
      st, tr := r.state, tr + r.trace;
      i := i + 1;
    }
    assert i == |kids| && tr + [] == tr;
    o := Done(1, st, tr);
  }

  method SelectorNode<S>(h: Heap, w: World<S>, id: NodeId, s: S, fuel: nat) returns (o: Outcome<S>)
    requires RunnableFrom(h, Some(id))
    ensures o == SelFrom(h, w, id, 0, s, fuel)
    decreases id + 1, 2
  {
    var n := h.nodes[id];
    var kids := Kids(n);
    assert NodeRunnable(h, id, n);
    var st, tr := s, [];
    var i := 0;
    while i < n.childCount
      invariant 0 <= i <= |kids| && |kids| == if n.childCount > 0 then n.childCount else 0
      invariant Then(tr, SelFrom(h, w, id, i, st, fuel)) == SelFrom(h, w, id, 0, s, fuel)
    {
      var r := ExecuteNode(h, w, kids[i], st, fuel);
      if r.OutOfFuel? {
        return OutOfFuel;
      }
      SelFromStep(h, w, id, i, st, fuel, r);
      ThenTwice(tr, r.trace, SelFrom(h, w, id, i + 1, r.state, fuel));
      if r.result != 0 {
        return Done(1, r.state, tr + r.trace);
      }
      st, tr := r.state, tr + r.trace;
      i := i + 1;
    }
    assert i == |kids| && tr + [] == tr;
    o := Done(0, st, tr);
  }

  method ParallelNode<S>(h: Heap, w: World<S>, id: NodeId, s: S, fuel: nat) returns (o: Outcome<S>)
    requires RunnableFrom(h, Some(id))
    ensures o == Tally(RunSpan(h, w, id, 0, |Kids(h.nodes[id])|, s, fuel), h.nodes[id].childCount)
    decreases id + 1, 2
  {
    var n := h.nodes[id];
    var kids := Kids(n);
    var successCount := 0;  // counts the children returning 0
    var st, tr := s, [];
    ghost var rs: seq<int> := [];
    var i := 0;
    while i < n.childCount
      invariant 0 <= i <= |kids| && |kids| == if n.childCount > 0 then n.childCount else 0
      invariant successCount == Failures(rs)
      invariant RunSpan(h, w, id, 0, |kids|, s, fuel) == Prepend(rs, tr, RunSpan(h, w, id, i, |kids|, st, fuel))
    {
      var r := ExecuteNode(h, w, kids[i], st, fuel);
      if r.OutOfFuel? {
        RunSpanStopped(h, w, id, i, s, st, fuel, rs, tr);
        return OutOfFuel;
      }
      RunSpanAfter(h, w, id, i, s, st, fuel, rs, tr, r);
      if r.result == 0 {
        successCount := successCount + 1;
      }
      FailuresSnoc(rs, r.result);
      rs, st, tr := rs + [r.result], r.state, tr + r.trace;
      i := i + 1;
    }
    RunSpanEnd(h, w, id, s, st, fuel, rs, tr);
    o := Done(if successCount == n.childCount then 1 else 0, st, tr);
  }

  method DecoratorNode<S>(h: Heap, w: World<S>, id: NodeId, s: S, fuel: nat) returns (o: Outcome<S>)
    requires RunnableFrom(h, Some(id)) && NodeTypeOf(h.nodes[id].role) == Some(Decorated)
    ensures o == Decorate(h, w, id, s, fuel)
    decreases id + 1, 2
  {
    var n := h.nodes[id];
    if n.childCount == 0 {
      return Done(0, s, []);
    }
    var d := h.decorators[n.decorator.value];
    match DecoratorTypeOf(d.kind)
    case Some(Invert) =>
      o := InvertDecorator(h, w, id, s, fuel);
    case Some(Repeat) =>
      o := RepeatDecorator(h, w, id, s, fuel);
    case Some(RepeatUntilSuccess) =>
      o := RepeatUntilSuccessDecorator(h, w, id, s, fuel);
    case Some(Conditional) =>
      o := ConditionalDecorator(h, w, id, s, fuel);
    case Some(Delay) =>
      o := DelayDecorator(h, w, id, s, fuel);
    case None =>
      o := Done(0, s, []);
  }

  method InvertDecorator<S>(h: Heap, w: World<S>, id: NodeId, s: S, fuel: nat) returns (o: Outcome<S>)
    requires RunnableFrom(h, Some(id)) && WrapsWith(h, id, Invert)
    ensures o == Decorate(h, w, id, s, fuel)
    decreases id + 1, 1
  {
    var r := ExecuteNode(h, w, Kids(h.nodes[id])[0], s, fuel);
    if r.OutOfFuel? {
      return OutOfFuel;
    }
    o := Done(if r.result == 0 then 1 else 0, r.state, r.trace);
  }

  method RepeatDecorator<S>(h: Heap, w: World<S>, id: NodeId, s: S, fuel: nat) returns (o: Outcome<S>)
    requires RunnableFrom(h, Some(id)) && WrapsWith(h, id, Repeat)
    ensures o == Decorate(h, w, id, s, fuel)
    decreases id + 1, 1
  {
    var n := h.nodes[id];
    var d := h.decorators[n.decorator.value];
    var child := Kids(n)[0];
    var repeat: nat := d.param;
    var result := 0;  // uninitialised in C; never returned because repeat >= 1
    var st, tr := s, [];
    while repeat > 0
      invariant repeat <= d.param
      invariant repeat >= 1 ==> Then(tr, RepeatFrom(h, w, id, repeat, st, fuel)) == RepeatFrom(h, w, id, d.param, s, fuel)
      invariant repeat == 0 ==> Done(result, st, tr) == RepeatFrom(h, w, id, d.param, s, fuel)
    {
      var r := ExecuteNode(h, w, child, st, fuel);
      if r.OutOfFuel? {
        return OutOfFuel;
      }
      RepeatFromStep(h, w, id, repeat, st, fuel, r);
      if repeat > 1 {
        ThenTwice(tr, r.trace, RepeatFrom(h, w, id, repeat - 1, r.state, fuel));
      }
      result, st, tr := r.result, r.state, tr + r.trace;
      repeat := repeat - 1;
    }
    o := Done(result, st, tr);
  }

  method RepeatUntilSuccessDecorator<S>(h: Heap, w: World<S>, id: NodeId, s: S, fuel: nat) returns (o: Outcome<S>)
    requires RunnableFrom(h, Some(id)) && WrapsWith(h, id, RepeatUntilSuccess)
    ensures o == Decorate(h, w, id, s, fuel)
    decreases id + 1, 1
  {
    var child := Kids(h.nodes[id])[0];
    var st, tr, budget := s, [], fuel;
    while true
      invariant Then(tr, UntilFailure(h, w, id, budget, st, fuel)) == UntilFailure(h, w, id, fuel, s, fuel)
      decreases budget
    {
      var r := ExecuteNode(h, w, child, st, fuel);
      if r.OutOfFuel? {
        return OutOfFuel;
      }
      UntilFailureStep(h, w, id, budget, st, fuel, r);
      if r.result == 0 {
        return Done(r.result, r.state, tr + r.trace);
      }
      if budget == 0 {
        return OutOfFuel;
      }
      ThenTwice(tr, r.trace, UntilFailure(h, w, id, budget - 1, r.state, fuel));
      st, tr, budget := r.state, tr + r.trace, budget - 1;
    }
  }

  method ConditionalDecorator<S>(h: Heap, w: World<S>, id: NodeId, s: S, fuel: nat) returns (o: Outcome<S>)
    requires RunnableFrom(h, Some(id)) && WrapsWith(h, id, Conditional)
    ensures o == Decorate(h, w, id, s, fuel)
    decreases id + 1, 1
  {
    var n := h.nodes[id];
    var kids := Kids(n);
    var first := ExecuteNode(h, w, kids[0], s, fuel);
    if first.OutOfFuel? {
      return OutOfFuel;
    }
    if n.childCount == 1 {
      return first;
    }
    if first.result != 0 {
      var second := ExecuteNode(h, w, kids[1], first.state, fuel);
      return Then(first.trace, second);
    }
    if n.childCount < 3 {
      return Done(0, first.state, first.trace);
    }
    var third := ExecuteNode(h, w, kids[2], first.state, fuel);
    o := Then(first.trace, third);
  }

  method DelayDecorator<S>(h: Heap, w: World<S>, id: NodeId, s: S, fuel: nat) returns (o: Outcome<S>)
    requires RunnableFrom(h, Some(id)) && WrapsWith(h, id, Delay)
    ensures o == Decorate(h, w, id, s, fuel)
    decreases id + 1, 1
  {
    var n := h.nodes[id];
    var delay := h.decorators[n.decorator.value].param;
    var r := ExecuteNode(h, w, Kids(n)[0], s, fuel);
    if r.OutOfFuel? {
      return OutOfFuel;
    }
    var tr := r.trace;
    if r.result == 1 {
      tr := tr + [Slept(delay)];  // sleep(delay)
    }
    o := Done(r.result, r.state, tr);
  }
}
