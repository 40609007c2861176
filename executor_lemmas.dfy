/**
 * What the executor computes, stated against runs without short-circuit as
 * the reference (RunSpan: children i to m - 1 of a node, each once, in
 * order; RunTimes: child 0 of a decorator node k times): Sequence and
 * Selector run the shortest prefix of their children that ends where they
 * stop, Parallel runs them all, Repeat(N) runs child 0 N times, and
 * RepeatUntilSuccess runs child 0 until the first 0.
 */
module ExecutorLemmas {
  import opened Types
  import opened Executor

  /** The last result of a run. */
  function LastOf<S>(runs: Runs<S>): Outcome<S>
    requires runs.Ran? ==> |runs.results| > 0
  {
    match runs
    case RanOutOfFuel => OutOfFuel
    case Ran(rs, s, t) => Done(rs[|rs| - 1], s, t)
  }

  /** Child 0 of decorator node `id`, executed `k` times in a row whatever it returns. */
  function RunTimes<S>(h: Heap, w: World<S>, id: NodeId, k: nat, s: S, fuel: nat): (r: Runs<S>)
    requires RunnableFrom(h, Some(id)) && NodeTypeOf(h.nodes[id].role) == Some(Decorated)
    requires h.nodes[id].childCount != 0
    ensures r.Ran? ==> |r.results| == k
    decreases k
  {
    if k == 0 then Ran([], s, [])
    else
      var o := Exec(h, w, Kids(h.nodes[id])[0], s, fuel);
      if o.OutOfFuel? then RanOutOfFuel
      else Prepend([o.result], o.trace, RunTimes(h, w, id, k - 1, o.state, fuel))
  }

  /** What one result in front of a run looks like. */
  lemma PrependOne<S>(r: int, t: seq<Event>, runs: Runs<S>)
    ensures var p := Prepend([r], t, runs);
      && (p.Ran? <==> runs.Ran?)
      && (p.Ran? ==> && |p.results| == |runs.results| + 1 && p.results[0] == r
                     && (forall j :: 0 <= j < |runs.results| ==> p.results[j + 1] == runs.results[j])
                     && p.state == runs.state && p.trace == t + runs.trace)
  {
  }

  /** Prepending to an empty run. */
  lemma PrependEmpty<S>(r: int, t: seq<Event>, s: S)
    ensures Prepend([r], t, Ran([], s, [])) == Ran([r], s, t)
  {
    assert [r] + [] == [r] && t + [] == t;
  }

  // ---------------------------------------------------------------------
  // Sequence and Selector
  // ---------------------------------------------------------------------

  /** The child result at which a Sequence (a 0) or a Selector (anything else) stops. */
  predicate Halts(t: NodeType, r: int)
  {
    if t == Sequence then r == 0 else r != 0
  }

  /** What a Sequence or Selector returns, depending on whether a child stopped it. */
  function Verdict(t: NodeType, halted: bool): (r: int)
    ensures r == 0 || r == 1
    ensures t == Sequence ==> (r == 1 <==> !halted)
    ensures t != Sequence ==> (r == 1 <==> halted)
  {
    if t == Sequence then (if halted then 0 else 1) else (if halted then 1 else 0)
  }

  /** The last of the results `rs` stopped the node. */
  predicate Halted(t: NodeType, rs: seq<int>)
  {
    |rs| > 0 && Halts(t, rs[|rs| - 1])
  }

  /**
   * `rs` are the results of the children a Sequence or Selector of kind `t`
   * executes: none before the last stops it, and unless they are all of its
   * children (`complete`), the last one does.
   */
  predicate UpToHalt(t: NodeType, rs: seq<int>, complete: bool)
  {
    && (forall j :: 0 <= j < |rs| - 1 ==> !Halts(t, rs[j]))
    && (!complete ==> Halted(t, rs))
  }

  lemma UpToHaltUncons(t: NodeType, r: int, rest: seq<int>, complete: bool)
    requires UpToHalt(t, [r] + rest, complete)
    ensures Halts(t, r) ==> rest == []
    ensures !Halts(t, r) ==> UpToHalt(t, rest, complete) && (rest == [] ==> complete)
    ensures Halted(t, [r] + rest) == if rest == [] then Halts(t, r) else Halted(t, rest)
  {
    var rs := [r] + rest;
    assert rs[0] == r;
    if !Halts(t, r) {
      forall j | 0 <= j < |rest| - 1 ensures !Halts(t, rest[j]) {
        assert rs[j + 1] == rest[j];
      }
    }
    if rest != [] {
      assert rs[|rs| - 1] == rest[|rest| - 1];
    }
  }

  lemma UpToHaltCons(t: NodeType, r: int, rest: seq<int>, complete: bool)
    requires Halts(t, r) ==> rest == []
    requires !Halts(t, r) ==> UpToHalt(t, rest, complete) && (rest == [] ==> complete)
    ensures UpToHalt(t, [r] + rest, complete)
    ensures Halted(t, [r] + rest) == if rest == [] then Halts(t, r) else Halted(t, rest)
  {
    var rs := [r] + rest;
    forall j | 0 <= j < |rs| - 1 ensures !Halts(t, rs[j]) {
      if j > 0 {
        assert rs[j] == rest[j - 1];
      }
    }
    if rest != [] {
      assert rs[|rs| - 1] == rest[|rest| - 1];
    }
  }

  lemma {:induction false} SeqFromPrefix<S>(h: Heap, w: World<S>, id: NodeId, i: nat, m: nat, s: S, fuel: nat)
    requires RunnableFrom(h, Some(id)) && i <= m <= |Kids(h.nodes[id])|
    requires RunSpan(h, w, id, i, m, s, fuel).Ran?
    requires UpToHalt(Sequence, RunSpan(h, w, id, i, m, s, fuel).results, m == |Kids(h.nodes[id])|)
    ensures var runs := RunSpan(h, w, id, i, m, s, fuel);
      SeqFrom(h, w, id, i, s, fuel) == Done(Verdict(Sequence, Halted(Sequence, runs.results)), runs.state, runs.trace)
    decreases m - i
  {
    if i < m {
      match Exec(h, w, Kids(h.nodes[id])[i], s, fuel)
      case OutOfFuel => assert false;
      case Done(r, st, t) =>
        match RunSpan(h, w, id, i + 1, m, st, fuel)
        case RanOutOfFuel => assert false;
        case Ran(rs, st2, t2) =>
          PrependOne(r, t, Ran(rs, st2, t2));
          UpToHaltUncons(Sequence, r, rs, m == |Kids(h.nodes[id])|);
          if r == 0 {
            PrependEmpty(r, t, st);
          } else {
            SeqFromPrefix(h, w, id, i + 1, m, st, fuel);
          }
    }
  }

  lemma {:induction false} SeqFromStops<S>(h: Heap, w: World<S>, id: NodeId, i: nat, s: S, fuel: nat) returns (m: nat)
    requires RunnableFrom(h, Some(id)) && i <= |Kids(h.nodes[id])|
    requires SeqFrom(h, w, id, i, s, fuel).Done?
    ensures i <= m <= |Kids(h.nodes[id])|
    ensures RunSpan(h, w, id, i, m, s, fuel).Ran?
    ensures UpToHalt(Sequence, RunSpan(h, w, id, i, m, s, fuel).results, m == |Kids(h.nodes[id])|)
    decreases |Kids(h.nodes[id])| - i
  {
    if i == |Kids(h.nodes[id])| {
      m := i;
    } else {
      var o := Exec(h, w, Kids(h.nodes[id])[i], s, fuel);
      if o.result == 0 {
        m := i + 1;
        PrependEmpty(o.result, o.trace, o.state);
        UpToHaltCons(Sequence, o.result, [], m == |Kids(h.nodes[id])|);
      } else {
        m := SeqFromStops(h, w, id, i + 1, o.state, fuel);
        var rest := RunSpan(h, w, id, i + 1, m, o.state, fuel);
        PrependOne(o.result, o.trace, rest);
        UpToHaltCons(Sequence, o.result, rest.results, m == |Kids(h.nodes[id])|);
      }
    }
  }

  /**
   * If a Sequence's first m children, run left to right, return non-zero
   * except possibly the last, which returns 0 unless m covers every child,
   * then the Sequence's outcome is that run: 0 when it stopped at
   * a 0, else 1.
   */
  lemma SequenceFromPrefix<S>(h: Heap, w: World<S>, id: NodeId, m: nat, s: S, fuel: nat)
    requires RunnableFrom(h, Some(id)) && NodeTypeOf(h.nodes[id].role) == Some(Sequence)
    requires m <= |Kids(h.nodes[id])| && RunSpan(h, w, id, 0, m, s, fuel).Ran?
    requires UpToHalt(Sequence, RunSpan(h, w, id, 0, m, s, fuel).results, m == |Kids(h.nodes[id])|)
    ensures var runs := RunSpan(h, w, id, 0, m, s, fuel);
      Exec(h, w, Some(id), s, fuel) == Done(Verdict(Sequence, Halted(Sequence, runs.results)), runs.state, runs.trace)
  {
    SeqFromPrefix(h, w, id, 0, m, s, fuel);
  }

  /**
   * A Sequence that finishes has run exactly such a prefix: children after
   * the first one returning 0 are never executed.
   */
  lemma SequenceStopsAtFirstFailure<S>(h: Heap, w: World<S>, id: NodeId, s: S, fuel: nat) returns (m: nat)
    requires RunnableFrom(h, Some(id)) && NodeTypeOf(h.nodes[id].role) == Some(Sequence)
    requires Exec(h, w, Some(id), s, fuel).Done?
    ensures m <= |Kids(h.nodes[id])| && RunSpan(h, w, id, 0, m, s, fuel).Ran?
    ensures var runs := RunSpan(h, w, id, 0, m, s, fuel);
      && UpToHalt(Sequence, runs.results, m == |Kids(h.nodes[id])|)
      && Exec(h, w, Some(id), s, fuel) == Done(Verdict(Sequence, Halted(Sequence, runs.results)), runs.state, runs.trace)
  {
    m := SeqFromStops(h, w, id, 0, s, fuel);
    SeqFromPrefix(h, w, id, 0, m, s, fuel);
  }

  /** A Sequence returns 1 exactly when every child, run in order, returns non-zero; otherwise 0. */
  lemma SequenceSucceedsIffAllSucceed<S>(h: Heap, w: World<S>, id: NodeId, s: S, fuel: nat)
    requires RunnableFrom(h, Some(id)) && NodeTypeOf(h.nodes[id].role) == Some(Sequence)
    requires Exec(h, w, Some(id), s, fuel).Done?
    ensures var o := Exec(h, w, Some(id), s, fuel);
      var all := RunSpan(h, w, id, 0, |Kids(h.nodes[id])|, s, fuel);
      && (o.result == 0 || o.result == 1)
      && (o.result == 1 <==> all.Ran? && forall j :: 0 <= j < |all.results| ==> all.results[j] != 0)
      && (o.result == 1 ==> o.state == all.state && o.trace == all.trace)
  {
    var n := |Kids(h.nodes[id])|;
    var m := SequenceStopsAtFirstFailure(h, w, id, s, fuel);
    var all := RunSpan(h, w, id, 0, n, s, fuel);
    if all.Ran? && forall j :: 0 <= j < |all.results| ==> all.results[j] != 0 {
      assert UpToHalt(Sequence, all.results, true);
      SequenceFromPrefix(h, w, id, n, s, fuel);
    }
  }

  lemma {:induction false} SelFromPrefix<S>(h: Heap, w: World<S>, id: NodeId, i: nat, m: nat, s: S, fuel: nat)
    requires RunnableFrom(h, Some(id)) && i <= m <= |Kids(h.nodes[id])|
    requires RunSpan(h, w, id, i, m, s, fuel).Ran?
    requires UpToHalt(Selector, RunSpan(h, w, id, i, m, s, fuel).results, m == |Kids(h.nodes[id])|)
    ensures var runs := RunSpan(h, w, id, i, m, s, fuel);
      SelFrom(h, w, id, i, s, fuel) == Done(Verdict(Selector, Halted(Selector, runs.results)), runs.state, runs.trace)
    decreases m - i
  {
    if i < m {
      match Exec(h, w, Kids(h.nodes[id])[i], s, fuel)
      case OutOfFuel => assert false;
      case Done(r, st, t) =>
        match RunSpan(h, w, id, i + 1, m, st, fuel)
        case RanOutOfFuel => assert false;
        case Ran(rs, st2, t2) =>
          PrependOne(r, t, Ran(rs, st2, t2));
          UpToHaltUncons(Selector, r, rs, m == |Kids(h.nodes[id])|);
          if r != 0 {
            PrependEmpty(r, t, st);
          } else {
            SelFromPrefix(h, w, id, i + 1, m, st, fuel);
          }
    }
  }

  lemma {:induction false} SelFromStops<S>(h: Heap, w: World<S>, id: NodeId, i: nat, s: S, fuel: nat) returns (m: nat)
    requires RunnableFrom(h, Some(id)) && i <= |Kids(h.nodes[id])|
    requires SelFrom(h, w, id, i, s, fuel).Done?
    ensures i <= m <= |Kids(h.nodes[id])|
    ensures RunSpan(h, w, id, i, m, s, fuel).Ran?
    ensures UpToHalt(Selector, RunSpan(h, w, id, i, m, s, fuel).results, m == |Kids(h.nodes[id])|)
    decreases |Kids(h.nodes[id])| - i
  {
    if i == |Kids(h.nodes[id])| {
      m := i;
    } else {
      var o := Exec(h, w, Kids(h.nodes[id])[i], s, fuel);
      if o.result != 0 {
        m := i + 1;
        PrependEmpty(o.result, o.trace, o.state);
        UpToHaltCons(Selector, o.result, [], m == |Kids(h.nodes[id])|);
      } else {
        m := SelFromStops(h, w, id, i + 1, o.state, fuel);
        var rest := RunSpan(h, w, id, i + 1, m, o.state, fuel);
        PrependOne(o.result, o.trace, rest);
        UpToHaltCons(Selector, o.result, rest.results, m == |Kids(h.nodes[id])|);
      }
    }
  }

  /**
   * If a Selector's first m children, run left to right, return 0 except
   * possibly the last, which returns non-zero unless m covers every child,
   * then the Selector's outcome is that run: 1 when it stopped at a
   * success, else 0.
   */
  lemma SelectorFromPrefix<S>(h: Heap, w: World<S>, id: NodeId, m: nat, s: S, fuel: nat)
    requires RunnableFrom(h, Some(id)) && NodeTypeOf(h.nodes[id].role) == Some(Selector)
    requires m <= |Kids(h.nodes[id])| && RunSpan(h, w, id, 0, m, s, fuel).Ran?
    requires UpToHalt(Selector, RunSpan(h, w, id, 0, m, s, fuel).results, m == |Kids(h.nodes[id])|)
    ensures var runs := RunSpan(h, w, id, 0, m, s, fuel);
      Exec(h, w, Some(id), s, fuel) == Done(Verdict(Selector, Halted(Selector, runs.results)), runs.state, runs.trace)
  {
    SelFromPrefix(h, w, id, 0, m, s, fuel);
  }

  /**
   * A Selector that finishes has run exactly such a prefix: children after
   * the first one returning non-zero are never executed.
   */
  lemma SelectorStopsAtFirstSuccess<S>(h: Heap, w: World<S>, id: NodeId, s: S, fuel: nat) returns (m: nat)
    requires RunnableFrom(h, Some(id)) && NodeTypeOf(h.nodes[id].role) == Some(Selector)
    requires Exec(h, w, Some(id), s, fuel).Done?
    ensures m <= |Kids(h.nodes[id])| && RunSpan(h, w, id, 0, m, s, fuel).Ran?
    ensures var runs := RunSpan(h, w, id, 0, m, s, fuel);
      && UpToHalt(Selector, runs.results, m == |Kids(h.nodes[id])|)
      && Exec(h, w, Some(id), s, fuel) == Done(Verdict(Selector, Halted(Selector, runs.results)), runs.state, runs.trace)
  {
    m := SelFromStops(h, w, id, 0, s, fuel);
    SelFromPrefix(h, w, id, 0, m, s, fuel);
  }

  /** A Selector returns 0 exactly when every child, run in order, returns 0; otherwise 1. */
  lemma SelectorFailsIffAllFail<S>(h: Heap, w: World<S>, id: NodeId, s: S, fuel: nat)
    requires RunnableFrom(h, Some(id)) && NodeTypeOf(h.nodes[id].role) == Some(Selector)
    requires Exec(h, w, Some(id), s, fuel).Done?
    ensures var o := Exec(h, w, Some(id), s, fuel);
      var all := RunSpan(h, w, id, 0, |Kids(h.nodes[id])|, s, fuel);
      && (o.result == 0 || o.result == 1)
      && (o.result == 0 <==> all.Ran? && forall j :: 0 <= j < |all.results| ==> all.results[j] == 0)
      && (o.result == 0 ==> o.state == all.state && o.trace == all.trace)
  {
    var n := |Kids(h.nodes[id])|;
    var m := SelectorStopsAtFirstSuccess(h, w, id, s, fuel);
    var all := RunSpan(h, w, id, 0, n, s, fuel);
    if all.Ran? && forall j :: 0 <= j < |all.results| ==> all.results[j] == 0 {
      assert UpToHalt(Selector, all.results, true);
      SelectorFromPrefix(h, w, id, n, s, fuel);
    }
  }

  // ---------------------------------------------------------------------
  // Parallel
  // ---------------------------------------------------------------------

  lemma {:induction false} FailuresCountsAll(rs: seq<int>)
    ensures Failures(rs) == |rs| <==> forall j :: 0 <= j < |rs| ==> rs[j] == 0
  {
    if rs != [] {
      var init := rs[..|rs| - 1];
      FailuresCountsAll(init);
      assert forall j :: 0 <= j < |init| ==> init[j] == rs[j];
    }
  }

  /**
   * Parallel runs every child exactly once, in order, with no short-circuit,
   * and returns 1 exactly when the number of children returning 0 equals
   * child_count, that is when every child returned 0.
   */
  lemma ParallelRunsEveryChild<S>(h: Heap, w: World<S>, id: NodeId, s: S, fuel: nat)
    requires RunnableFrom(h, Some(id)) && NodeTypeOf(h.nodes[id].role) == Some(Parallel)
    ensures var o := Exec(h, w, Some(id), s, fuel);
      var all := RunSpan(h, w, id, 0, |Kids(h.nodes[id])|, s, fuel);
      && (o.Done? <==> all.Ran?)
      && (o.Done? ==>
            && |all.results| == |Kids(h.nodes[id])|
            && o.state == all.state && o.trace == all.trace
            && (o.result == 0 || o.result == 1)
            && (o.result == 1 <==> h.nodes[id].childCount == |all.results|
                                   && forall j :: 0 <= j < |all.results| ==> all.results[j] == 0))
  {
    var all := RunSpan(h, w, id, 0, |Kids(h.nodes[id])|, s, fuel);
    if all.Ran? {
      FailuresCountsAll(all.results);
    }
  }

  /**
   * Against its comment ("succeeds if all succeed"), a Parallel node whose
   * children all return non-zero returns 0.
   */
  lemma ParallelFailsWhenAllChildrenSucceed<S>(h: Heap, w: World<S>, id: NodeId, s: S, fuel: nat)
    requires RunnableFrom(h, Some(id)) && NodeTypeOf(h.nodes[id].role) == Some(Parallel)
    requires h.nodes[id].childCount >= 1
    requires var all := RunSpan(h, w, id, 0, |Kids(h.nodes[id])|, s, fuel);
      all.Ran? && forall j :: 0 <= j < |all.results| ==> all.results[j] != 0
    ensures Exec(h, w, Some(id), s, fuel).Done? && Exec(h, w, Some(id), s, fuel).result == 0
  {
    ParallelRunsEveryChild(h, w, id, s, fuel);
    var all := RunSpan(h, w, id, 0, |Kids(h.nodes[id])|, s, fuel);
    assert all.results[0] != 0;
  }

  // ---------------------------------------------------------------------
  // Decorators
  // ---------------------------------------------------------------------

  /** Invert returns 1 exactly when child 0 returns 0, and 0 otherwise. */
  lemma InvertFlips<S>(h: Heap, w: World<S>, id: NodeId, s: S, fuel: nat)
    requires RunnableFrom(h, Some(id)) && WrapsWith(h, id, Invert)
    ensures var o := Exec(h, w, Some(id), s, fuel);
      var c := Exec(h, w, Kids(h.nodes[id])[0], s, fuel);
      && (o.Done? <==> c.Done?)
      && (o.Done? ==> (o.result == 1 <==> c.result == 0) && (o.result == 0 <==> c.result != 0)
                      && o.state == c.state && o.trace == c.trace)
  {
  }

  /** Delay returns child 0's result unchanged and pauses for its parameter only when that result is 1. */
  lemma DelayPassesResultThrough<S>(h: Heap, w: World<S>, id: NodeId, s: S, fuel: nat)
    requires RunnableFrom(h, Some(id)) && WrapsWith(h, id, Delay)
    ensures var o := Exec(h, w, Some(id), s, fuel);
      var c := Exec(h, w, Kids(h.nodes[id])[0], s, fuel);
      var d := h.decorators[h.nodes[id].decorator.value];
      && (o.Done? <==> c.Done?)
      && (o.Done? ==> o.result == c.result && o.state == c.state
                      && o.trace == if c.result == 1 then c.trace + [Slept(d.param)] else c.trace)
  {
  }

  lemma LastOfPrepend<S>(r: int, t: seq<Event>, runs: Runs<S>)
    requires runs.Ran? ==> |runs.results| > 0
    ensures LastOf(Prepend([r], t, runs)) == Then(t, LastOf(runs))
  {
    if runs.Ran? {
      var rs := runs.results;
      assert ([r] + rs)[|rs|] == rs[|rs| - 1];
    }
  }

  lemma {:induction false} RepeatFromRuns<S>(h: Heap, w: World<S>, id: NodeId, k: nat, s: S, fuel: nat)
    requires RunnableFrom(h, Some(id)) && NodeTypeOf(h.nodes[id].role) == Some(Decorated)
    requires h.nodes[id].childCount != 0 && k >= 1
    ensures RepeatFrom(h, w, id, k, s, fuel) == LastOf(RunTimes(h, w, id, k, s, fuel))
    decreases k
  {
    var o := Exec(h, w, Kids(h.nodes[id])[0], s, fuel);
    RunTimesStep(h, w, id, k, s, fuel, o);
    RepeatFromStep(h, w, id, k, s, fuel, o);
    if o.Done? {
      if k == 1 {
        RunTimesStep(h, w, id, k, s, fuel, o);
        PrependEmpty(o.result, o.trace, o.state);
      } else {
        var rest := RunTimes(h, w, id, k - 1, o.state, fuel);
        RepeatFromRuns(h, w, id, k - 1, o.state, fuel);
        LastOfPrepend(o.result, o.trace, rest);
      }
    }
  }

  /**
   * Repeat(N) executes child 0 exactly N times, whatever it returns, and
   * returns the result of the last execution.
   */
  lemma RepeatRunsChildNTimes<S>(h: Heap, w: World<S>, id: NodeId, s: S, fuel: nat)
    requires RunnableFrom(h, Some(id)) && WrapsWith(h, id, Repeat)
    ensures var n := h.decorators[h.nodes[id].decorator.value].param;
      var o := Exec(h, w, Some(id), s, fuel);
      var all := RunTimes(h, w, id, n, s, fuel);
      && n >= 1
      && (o.Done? <==> all.Ran?)
      && (o.Done? ==> |all.results| == n && o.result == all.results[n - 1]
                      && o.state == all.state && o.trace == all.trace)
  {
    RepeatFromRuns(h, w, id, h.decorators[h.nodes[id].decorator.value].param, s, fuel);
  }

  /** `rs` holds m non-zero results followed by a 0. */
  predicate FailsFirstAt(rs: seq<int>, m: nat)
  {
    |rs| == m + 1 && (forall j :: 0 <= j < m ==> rs[j] != 0) && rs[m] == 0
  }

  lemma FailsFirstAtCons(r: int, rest: seq<int>, m: nat)
    requires r != 0 && FailsFirstAt(rest, m)
    ensures FailsFirstAt([r] + rest, m + 1)
  {
    var rs := [r] + rest;
    forall j | 0 <= j < m + 1 ensures rs[j] != 0 {
      if j > 0 {
        assert rs[j] == rest[j - 1];
      }
    }
    assert rs[m + 1] == rest[m];
  }

  lemma FailsFirstAtUncons(r: int, rest: seq<int>, m: nat)
    requires FailsFirstAt([r] + rest, m)
    ensures m == 0 ==> r == 0 && rest == []
    ensures m > 0 ==> r != 0 && FailsFirstAt(rest, m - 1)
  {
    var rs := [r] + rest;
    assert rs[0] == r;
    if m > 0 {
      forall j | 0 <= j < m - 1 ensures rest[j] != 0 {
        assert rs[j + 1] == rest[j];
      }
      assert rs[m] == rest[m - 1];
    }
  }

  lemma RunTimesStep<S>(h: Heap, w: World<S>, id: NodeId, k: nat, s: S, fuel: nat, o: Outcome<S>)
    requires RunnableFrom(h, Some(id)) && NodeTypeOf(h.nodes[id].role) == Some(Decorated)
    requires h.nodes[id].childCount != 0 && k >= 1
    requires o == Exec(h, w, Kids(h.nodes[id])[0], s, fuel)
    ensures RunTimes(h, w, id, k, s, fuel)
              == if o.OutOfFuel? then RanOutOfFuel else Prepend([o.result], o.trace, RunTimes(h, w, id, k - 1, o.state, fuel))
  {
  }

  lemma {:induction false} UntilFailureFromRuns<S>(h: Heap, w: World<S>, id: NodeId, budget: nat, m: nat, s: S, fuel: nat)
    requires RunnableFrom(h, Some(id)) && NodeTypeOf(h.nodes[id].role) == Some(Decorated)
    requires h.nodes[id].childCount != 0 && m <= budget
    requires RunTimes(h, w, id, m + 1, s, fuel).Ran? && FailsFirstAt(RunTimes(h, w, id, m + 1, s, fuel).results, m)
    ensures var all := RunTimes(h, w, id, m + 1, s, fuel);
      UntilFailure(h, w, id, budget, s, fuel) == Done(0, all.state, all.trace)
    decreases m
  {
    var o := Exec(h, w, Kids(h.nodes[id])[0], s, fuel);
    var all := RunTimes(h, w, id, m + 1, s, fuel);
    RunTimesStep(h, w, id, m + 1, s, fuel, o);
    assert o.Done?;
    var rest := RunTimes(h, w, id, m, o.state, fuel);
    assert all == Prepend([o.result], o.trace, rest);
    assert rest.Ran? && all.results == [o.result] + rest.results;
    assert all.state == rest.state && all.trace == o.trace + rest.trace;
    FailsFirstAtUncons(o.result, rest.results, m);
    UntilFailureStep(h, w, id, budget, s, fuel, o);
    if m > 0 {
      assert UntilFailure(h, w, id, budget, s, fuel) == Then(o.trace, UntilFailure(h, w, id, budget - 1, o.state, fuel));
      UntilFailureFromRuns(h, w, id, budget - 1, m - 1, o.state, fuel);
    } else {
      assert rest == Ran([], o.state, []);
      assert o.trace + [] == o.trace;
    }
  }

  lemma {:induction false} UntilFailureStops<S>(h: Heap, w: World<S>, id: NodeId, budget: nat, s: S, fuel: nat) returns (m: nat)
    requires RunnableFrom(h, Some(id)) && NodeTypeOf(h.nodes[id].role) == Some(Decorated)
    requires h.nodes[id].childCount != 0
    requires UntilFailure(h, w, id, budget, s, fuel).Done?
    ensures m <= budget
    ensures RunTimes(h, w, id, m + 1, s, fuel).Ran? && FailsFirstAt(RunTimes(h, w, id, m + 1, s, fuel).results, m)
    decreases budget
  {
    var o := Exec(h, w, Kids(h.nodes[id])[0], s, fuel);
    UntilFailureStep(h, w, id, budget, s, fuel, o);
    match o
    case OutOfFuel => assert false;
    case Done(r, st, t) =>
      if r == 0 {
        m := 0;
        RunTimesStep(h, w, id, 1, s, fuel, o);
        PrependEmpty(r, t, st);
      } else {
        var m' := UntilFailureStops(h, w, id, budget - 1, st, fuel);
        m := m' + 1;
        RunTimesStep(h, w, id, m + 1, s, fuel, o);
        match RunTimes(h, w, id, m, st, fuel)
        case RanOutOfFuel => assert false;
        case Ran(rs, st2, t2) =>
          PrependOne(r, t, Ran(rs, st2, t2));
          FailsFirstAtCons(r, rs, m');
      }
  }

  /**
   * RepeatUntilSuccess, as written, executes child 0 at least once, goes on
   * while it returns non-zero, and, when it stops, returns 0: its outcome is
   * m + 1 runs of child 0 of which only the last returned 0.
   */
  lemma RepeatUntilSuccessStopsAtFirstFailure<S>(h: Heap, w: World<S>, id: NodeId, s: S, fuel: nat) returns (m: nat)
    requires RunnableFrom(h, Some(id)) && WrapsWith(h, id, RepeatUntilSuccess)
    requires Exec(h, w, Some(id), s, fuel).Done?
    ensures m <= fuel
    ensures var all := RunTimes(h, w, id, m + 1, s, fuel);
      && all.Ran? && FailsFirstAt(all.results, m)
      && Exec(h, w, Some(id), s, fuel) == Done(0, all.state, all.trace)
  {
    m := UntilFailureStops(h, w, id, fuel, s, fuel);
    UntilFailureFromRuns(h, w, id, fuel, m, s, fuel);
  }

  /** Conversely, such a run within the fuel bound is the decorator's outcome. */
  lemma RepeatUntilSuccessFromRuns<S>(h: Heap, w: World<S>, id: NodeId, m: nat, s: S, fuel: nat)
    requires RunnableFrom(h, Some(id)) && WrapsWith(h, id, RepeatUntilSuccess) && m <= fuel
    requires RunTimes(h, w, id, m + 1, s, fuel).Ran? && FailsFirstAt(RunTimes(h, w, id, m + 1, s, fuel).results, m)
    ensures var all := RunTimes(h, w, id, m + 1, s, fuel);
      Exec(h, w, Some(id), s, fuel) == Done(0, all.state, all.trace)
  {
    UntilFailureFromRuns(h, w, id, fuel, m, s, fuel);
  }

  /**
   * Conditional always executes child 0 and then at most one of children 1
   * and 2: child 1 after a non-zero result, child 2 after a 0 when there
   * are three children, none otherwise.
   */
  lemma ConditionalRunsOneBranch<S>(h: Heap, w: World<S>, id: NodeId, s: S, fuel: nat)
    requires RunnableFrom(h, Some(id)) && WrapsWith(h, id, Conditional)
    ensures var n := h.nodes[id];
      var kids := Kids(n);
      var o := Exec(h, w, Some(id), s, fuel);
      var c := Exec(h, w, kids[0], s, fuel);
      && (c.OutOfFuel? ==> o.OutOfFuel?)
      && (c.Done? && n.childCount == 1 ==> o == c)
      && (c.Done? && n.childCount == 2 ==>
            o == if c.result != 0 then Then(c.trace, Exec(h, w, kids[1], c.state, fuel)) else Done(0, c.state, c.trace))
      && (c.Done? && n.childCount == 3 ==>
            o == Then(c.trace, Exec(h, w, kids[if c.result != 0 then 1 else 2], c.state, fuel)))
  {
  }

  // ---------------------------------------------------------------------
  // Leaves and defaults
  // ---------------------------------------------------------------------

  /** An Action or Condition calls its callback once and returns what it returns. */
  lemma LeafCallsCallbackOnce<S>(h: Heap, w: World<S>, id: NodeId, s: S, fuel: nat)
    requires RunnableFrom(h, Some(id))
    requires NodeTypeOf(h.nodes[id].role) == Some(Action) || NodeTypeOf(h.nodes[id].role) == Some(Condition)
    ensures var a := h.nodes[id].action.value;
      Exec(h, w, Some(id), s, fuel) == Done(w(s, a).0, w(s, a).1, [Invoked(id, a, w(s, a).0)])
  {
  }

  /** The defaults: NULL, Memory and unknown roles, a childless decorator node and an unknown decorator kind all yield 0 and do nothing. */
  lemma ExecDefaults<S>(h: Heap, w: World<S>, node: Option<NodeId>, s: S, fuel: nat)
    requires RunnableFrom(h, node)
    ensures node.None? ==> Exec(h, w, node, s, fuel) == Done(0, s, [])
    ensures node.Some? && (NodeTypeOf(h.nodes[node.value].role).None? || NodeTypeOf(h.nodes[node.value].role) == Some(Memory))
            ==> Exec(h, w, node, s, fuel) == Done(0, s, [])
    ensures node.Some? && NodeTypeOf(h.nodes[node.value].role) == Some(Decorated) && h.nodes[node.value].childCount == 0
            ==> Exec(h, w, node, s, fuel) == Done(0, s, [])
    ensures node.Some? && NodeTypeOf(h.nodes[node.value].role) == Some(Decorated) && h.nodes[node.value].childCount != 0
            && DecoratorTypeOf(h.decorators[h.nodes[node.value].decorator.value].kind).None?
            ==> Exec(h, w, node, s, fuel) == Done(0, s, [])
  {
  }
}
