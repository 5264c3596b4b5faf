/**
 * ParallelFirstStack: updates the nodes in index order and finishes as soon
 * as one of them is Finished after its update, selecting that node's output.
 */
module ParallelFirstStacks {
  import opened MicrosceneNodes
  import opened StackContexts
  import opened StackBehaviours

  /** The result of one Update and the node states after it. */
  datatype Tick = Tick(result: StackResult, states: seq<NodeState>)

  /**
   * The rest of an Update call from position `i` on: node `k` is updated with
   * `hooks(k)`; the first node Finished after its update wins.
   */
  function FirstFinished(states: seq<NodeState>, hooks: nat -> Hooks, i: nat): (t: Tick)
    requires i <= |states|
    ensures |t.states| == |states|
    decreases |states| - i
  {
    if i == |states| then Tick(Continue(), states)
    else
      var s := UpdateStep(states[i], hooks(i)).state;
      if s == Finished then Tick(FinishAndSelect(i), states[i := s])
      else FirstFinished(states[i := s], hooks, i + 1)
  }

  /** FirstFinished does not touch the nodes before `i`. */
  lemma {:induction false} FirstFinishedKeepsPrefix(states: seq<NodeState>, hooks: nat -> Hooks, i: nat)
    requires i <= |states|
    ensures forall k :: 0 <= k < i ==> FirstFinished(states, hooks, i).states[k] == states[k]
    decreases |states| - i
  {
    if i < |states| {
      var s := UpdateStep(states[i], hooks(i)).state;
      if s != Finished {
        FirstFinishedKeepsPrefix(states[i := s], hooks, i + 1);
      }
    }
  }

  /** A winner is the lowest updated position that is Finished; the nodes after it are not updated. */
  lemma {:induction false} FirstFinishedWinner(states: seq<NodeState>, hooks: nat -> Hooks, i: nat)
    requires i <= |states|
    ensures var t := FirstFinished(states, hooks, i);
      t.result.finished ==>
        var w := t.result.winnerIndex;
        && i <= w < |states|
        && t.states[w] == Finished
        && (forall k :: i <= k <= w ==> t.states[k] == UpdateStep(states[k], hooks(k)).state)
        && (forall k :: i <= k < w ==> t.states[k] != Finished)
        && (forall k :: w < k < |states| ==> t.states[k] == states[k])
    decreases |states| - i
  {
    if i < |states| {
      var s := UpdateStep(states[i], hooks(i)).state;
      if s != Finished {
        var next := states[i := s];
        FirstFinishedWinner(next, hooks, i + 1);
        FirstFinishedKeepsPrefix(next, hooks, i + 1);
        assert forall k :: i < k < |states| ==> next[k] == states[k];
      }
    }
  }

  /** Without a winner every node from `i` on was updated once, none is Finished, and the result is Continue(). */
  lemma {:induction false} FirstFinishedNoWinner(states: seq<NodeState>, hooks: nat -> Hooks, i: nat)
    requires i <= |states|
    ensures var t := FirstFinished(states, hooks, i);
      !t.result.finished ==>
        && t.result == Continue()
        && (forall k :: i <= k < |states| ==> t.states[k] == UpdateStep(states[k], hooks(k)).state)
        && (forall k :: i <= k < |states| ==> t.states[k] != Finished)
    decreases |states| - i
  {
    if i < |states| {
      var s := UpdateStep(states[i], hooks(i)).state;
      if s != Finished {
        var next := states[i := s];
        FirstFinishedNoWinner(next, hooks, i + 1);
        FirstFinishedKeepsPrefix(next, hooks, i + 1);
        assert forall k :: i < k < |states| ==> next[k] == states[k];
      }
    }
  }

  /** What FirstFinished computes: the lowest-index winner, and which nodes it updates. */
  lemma FirstFinishedMeaning(states: seq<NodeState>, hooks: nat -> Hooks, i: nat)
    requires i <= |states|
    ensures var t := FirstFinished(states, hooks, i);
      // nodes before `i` are not touched
      && (forall k :: 0 <= k < i ==> t.states[k] == states[k])
      // a winner is the lowest updated position that is Finished; the nodes after it are not updated
      && (t.result.finished ==>
        var w := t.result.winnerIndex;
        && i <= w < |states|
        && t.states[w] == Finished
        && (forall k :: i <= k <= w ==> t.states[k] == UpdateStep(states[k], hooks(k)).state)
        && (forall k :: i <= k < w ==> t.states[k] != Finished)
        && (forall k :: w < k < |states| ==> t.states[k] == states[k]))
      // without a winner every node was updated once, none is Finished, and the result is Continue()
      && (!t.result.finished ==>
        && t.result == Continue()
        && (forall k :: i <= k < |states| ==> t.states[k] == UpdateStep(states[k], hooks(k)).state)
        && (forall k :: i <= k < |states| ==> t.states[k] != Finished))
  {
    FirstFinishedKeepsPrefix(states, hooks, i);
    FirstFinishedWinner(states, hooks, i);
    FirstFinishedNoWinner(states, hooks, i);
  }

  /** A node that is already Finished when the call starts always wins, unless an earlier one does. */
  lemma {:induction false} FinishedNodeBoundsWinner(states: seq<NodeState>, hooks: nat -> Hooks, j: nat)
    requires j < |states| && states[j] == Finished
    ensures FirstFinished(states, hooks, 0).result.finished
    ensures FirstFinished(states, hooks, 0).result.winnerIndex <= j
  {
    FirstFinishedMeaning(states, hooks, 0);
  }

  /** The positions 0 to n - 1, in increasing order. */
  function UpTo(n: nat): seq<int>
  {
    if n == 0 then [] else UpTo(n - 1) + [n - 1]
  }

  /** One step of FirstFinished, unfolded. */
  lemma FirstFinishedStep(states: seq<NodeState>, hooks: nat -> Hooks, i: nat)
    requires i < |states|
    ensures var s := UpdateStep(states[i], hooks(i)).state;
      FirstFinished(states, hooks, i) ==
        if s == Finished then Tick(FinishAndSelect(i), states[i := s])
        else FirstFinished(states[i := s], hooks, i + 1)
  {
  }

  /** Update(ref ctx). Node `k` is updated with `hooks(k)`. */
  method Update(ctx: StackContext, hooks: nat -> Hooks) returns (r: StackResult, ghost updated: seq<int>)
    requires Distinct(ctx.children)
    modifies ctx`currentNode, Elements(ctx.children)
    ensures Tick(r, States(ctx.children)) == FirstFinished(old(States(ctx.children)), hooks, 0)
    ensures r.finished ==> 0 <= r.winnerIndex < ctx.StackLength()
    // the nodes are updated in increasing index order, up to the winner or to the end
    ensures updated == UpTo(if r.finished then r.winnerIndex + 1 else ctx.children.Length)
  {
    ghost var start := States(ctx.children);
    ghost var cur := start;
    var i := 0;
    updated := [];
    while i < ctx.StackLength()
      invariant 0 <= i <= ctx.children.Length
      invariant States(ctx.children) == cur && |cur| == ctx.children.Length
      invariant FirstFinished(cur, hooks, i) == FirstFinished(start, hooks, 0)
      invariant updated == UpTo(i)
    {
      var nodeState := ctx.UpdateNode(i, hooks(i));
      FirstFinishedStep(cur, hooks, i);
      cur := cur[i := nodeState];
      assert UpTo(i + 1) == UpTo(i) + [i];
      updated := updated + [i];
      if nodeState == Finished {
        return FinishAndSelect(i), updated;
      }
      i := i + 1;
    }
    return Continue(), updated;
  }
}
