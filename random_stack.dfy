/**
 * RandomStack: Reset picks one node of the stack at random; every Update
 * drives only that node. The pick is any index in range.
 */
module RandomStacks {
  import opened MicrosceneNodes

  class RandomStack {
    /** `nodeIndex`, the chosen node. */
    var nodeIndex: int

    constructor ()
      ensures nodeIndex == 0
    {
      nodeIndex := 0;
    }

    /**
     * Reset(stack): Random.Range(0, stack.Length), which gives the lower bound
     * 0 when the range is empty.
     */
    method Reset(stack: array<Node>)
      modifies this
      ensures stack.Length > 0 ==> 0 <= nodeIndex < stack.Length
      ensures stack.Length == 0 ==> nodeIndex == 0
    {
      if stack.Length == 0 {
        nodeIndex := 0;
      } else {
        var pick :| 0 <= pick < stack.Length;
        nodeIndex := pick;
      }
    }

    /** Update(ctx, stack, ref winnerIndex). */
    method Update(stack: array<Node>, h: Hooks, winnerIndex: int) returns (finished: bool, winner: int)
      requires 0 <= nodeIndex < stack.Length
      modifies stack[nodeIndex]
      ensures stack[nodeIndex].state == UpdateStep(old(stack[nodeIndex].state), h).state
      ensures finished <==> stack[nodeIndex].state == Finished
      // the chosen index is kept, and is not reported as the winner
      ensures nodeIndex == old(nodeIndex)
      ensures winner == winnerIndex
    {
      var _ := stack[nodeIndex].UpdateNode(h);
      finished := stack[nodeIndex].state == Finished;
      winner := winnerIndex;
    }
  }
}
