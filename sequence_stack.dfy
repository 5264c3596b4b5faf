/**
 * SequenceStack: a cursor walks the stack; each call updates only the node
 * under the cursor and moves the cursor on when that node is Finished.
 */
module SequenceStacks {
  import opened MicrosceneNodes

  /** One Update on node states: the new cursor and the new states. */
  datatype Tick = Tick(index: int, states: seq<NodeState>)

  function SequenceTick(index: int, states: seq<NodeState>, h: Hooks): (t: Tick)
    requires 0 <= index < |states|
    ensures |t.states| == |states|
  {
    var s := UpdateStep(states[index], h).state;
    Tick(if s == Finished then index + 1 else index, states[index := s])
  }

  /** The cursor and node states after a series of Update calls, stopping once the stack is done. */
  function SequenceRun(index: int, states: seq<NodeState>, ticks: seq<Hooks>): (t: Tick)
    requires 0 <= index <= |states|
    ensures |t.states| == |states|
    decreases |ticks|
  {
    if ticks == [] || index == |states| then Tick(index, states)
    else
      var t := SequenceTick(index, states, ticks[0]);
      SequenceRun(t.index, t.states, ticks[1..])
  }

  /**
   * Run from a cursor with only Finished nodes before it, the cursor never
   * moves back, every node it has passed is Finished, and no node past the
   * cursor has been updated: node k+1 is never updated while node k is not
   * yet Finished.
   */
  lemma {:induction false} SequenceRunKeepsOrder(index: int, states: seq<NodeState>, ticks: seq<Hooks>)
    requires 0 <= index <= |states|
    requires forall k :: 0 <= k < index ==> states[k] == Finished
    ensures var t := SequenceRun(index, states, ticks);
      && index <= t.index <= |states|
      && (forall k :: 0 <= k < t.index ==> t.states[k] == Finished)
      && (forall k :: t.index < k < |states| ==> t.states[k] == states[k])
    decreases |ticks|
  {
    if ticks != [] && index < |states| {
      var t := SequenceTick(index, states, ticks[0]);
      SequenceRunKeepsOrder(t.index, t.states, ticks[1..]);
    }
  }

  /** A sequence that is done has had every one of its nodes Finished. */
  lemma DoneMeansAllFinished(states: seq<NodeState>, ticks: seq<Hooks>)
    requires SequenceRun(0, states, ticks).index >= |states|
    ensures forall k :: 0 <= k < |states| ==> SequenceRun(0, states, ticks).states[k] == Finished
  {
    SequenceRunKeepsOrder(0, states, ticks);
  }

  class SequenceStack {
    /** The cursor `index`. */
    var index: int

    constructor ()
      ensures index == 0
    {
      index := 0;
    }

    /** Reset(stack): puts the cursor back to the first node. */
    method Reset(stack: array<Node>)
      modifies this
      ensures index == 0
    {
      index := 0;
    }

    /** Update(ctx, stack, ref winnerIndex). */
    method Update(stack: array<Node>, h: Hooks, winnerIndex: int) returns (finished: bool, winner: int)
      requires 0 <= index < stack.Length
      modifies this, stack[index]
      // only the node under the cursor is updated
      ensures stack[old(index)].state == UpdateStep(old(stack[index].state), h).state
      // the cursor moves on by one exactly when that node is Finished
      ensures index == if stack[old(index)].state == Finished then old(index) + 1 else old(index)
      ensures finished <==> index >= stack.Length
      ensures winner == winnerIndex
      // on distinct nodes, the call is one SequenceTick of the cursor and the node states
      ensures Distinct(stack) ==> Tick(index, States(stack)) == SequenceTick(old(index), old(States(stack)), h)
    {
      var i := index;
      var _ := stack[i].UpdateNode(h);
      if stack[i].state == Finished {
        index := index + 1;
      }
      finished := index >= stack.Length;
      winner := winnerIndex;
      if Distinct(stack) {
        forall k | 0 <= k < stack.Length && k != i
          ensures stack[k].state == old(stack[k].state)
        {
          assert stack[k] != stack[i];
        }
      }
    }
  }
}
