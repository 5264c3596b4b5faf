/**
 * ParallelAllStack: every call updates every node once, in index order, and
 * the stack is done when all of them are Finished. It never writes the
 * winner index, so its single output is whatever the caller passed in.
 */
module ParallelAllStacks {
  import opened MicrosceneNodes

  /** Every node updated once, node `k` with `hooks(k)`. */
  function UpdateEach(states: seq<NodeState>, hooks: nat -> Hooks): (r: seq<NodeState>)
    ensures |r| == |states|
  {
    seq(|states|, k requires 0 <= k < |states| => UpdateStep(states[k], hooks(k)).state)
  }

  predicate AllFinished(states: seq<NodeState>)
  {
    forall k :: 0 <= k < |states| ==> states[k] == Finished
  }

  /** The node states after a series of Update calls, tick `t` using `ticks[t]`. */
  function RunTicks(states: seq<NodeState>, ticks: seq<nat -> Hooks>): (r: seq<NodeState>)
    ensures |r| == |states|
    decreases |ticks|
  {
    if ticks == [] then states else RunTicks(UpdateEach(states, ticks[0]), ticks[1..])
  }

  /** The hooks node `k` sees over a series of ticks. */
  function Column(ticks: seq<nat -> Hooks>, k: nat): (c: seq<Hooks>)
    ensures |c| == |ticks|
  {
    seq(|ticks|, t requires 0 <= t < |ticks| => ticks[t](k))
  }

  /**
   * Each node of a ParallelAll stack evolves as if it were updated alone, once
   * per tick: the stack neither skips nor repeats a node.
   */
  lemma {:induction false} RunTicksIsPerNodeRun(states: seq<NodeState>, ticks: seq<nat -> Hooks>, k: nat)
    requires k < |states|
    ensures RunTicks(states, ticks)[k] == Run(states[k], Column(ticks, k))
    decreases |ticks|
  {
    if ticks != [] {
      RunTicksIsPerNodeRun(UpdateEach(states, ticks[0]), ticks[1..], k);
      assert Column(ticks, k)[1..] == Column(ticks[1..], k);
    }
  }

  /**
   * The stack is finished after a series of ticks exactly when every node is:
   * for nodes that finish on different ticks, that is the tick of the last one.
   */
  lemma FinishesWithTheLastNode(states: seq<NodeState>, ticks: seq<nat -> Hooks>)
    ensures AllFinished(RunTicks(states, ticks)) <==>
      forall k :: 0 <= k < |states| ==> Run(states[k], Column(ticks, k)) == Finished
  {
    forall k | 0 <= k < |states| {
      RunTicksIsPerNodeRun(states, ticks, k);
    }
  }

  class ParallelAllStack {
    constructor ()
    {
    }

    /** Reset(stack): does nothing. */
    method Reset(stack: array<Node>)
      ensures unchanged(this) && unchanged(Elements(stack))
    {
    }

    /** Update(ctx, stack, ref winnerIndex). Node `k` is updated with `hooks(k)`. */
    method Update(stack: array<Node>, hooks: nat -> Hooks, winnerIndex: int)
      returns (finished: bool, winner: int, ghost updated: seq<int>)
      requires Distinct(stack)
      modifies Elements(stack)
      ensures States(stack) == UpdateEach(old(States(stack)), hooks)
      ensures finished <==> AllFinished(States(stack))
      ensures winner == winnerIndex
      // every node is updated once, in index order, with no early exit
      ensures updated == seq(stack.Length, k => k)
    {
      ghost var start := States(stack);
      finished := true;
      updated := [];
      for i := 0 to stack.Length
        invariant forall k :: 0 <= k < i ==> stack[k].state == UpdateStep(start[k], hooks(k)).state
        invariant forall k :: i <= k < stack.Length ==> stack[k].state == start[k]
        invariant finished <==> forall k :: 0 <= k < i ==> stack[k].state == Finished
        invariant updated == seq(i, k => k)
      {
        var node := stack[i];
        var _ := node.UpdateNode(hooks(i));
        updated := updated + [i];
        finished := finished && node.state == Finished;
      }
      winner := winnerIndex;
    }
  }
}
