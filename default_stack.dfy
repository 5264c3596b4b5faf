/** DefaultStackBehvaiour: the behaviour of a lone node, which drives node 0 only. */
module DefaultStacks {
  import opened MicrosceneNodes
  import opened StackContexts
  import opened StackBehaviours

  /** Update(ref ctx). */
  method Update(ctx: StackContext, h: Hooks) returns (r: StackResult)
    requires ctx.StackLength() >= 1
    modifies ctx`currentNode, ctx.children[0]
    ensures ctx.children[0].state == UpdateStep(old(ctx.children[0].state), h).state
    ensures r.finished <==> ctx.children[0].state == Finished
    ensures r.winnerIndex == 0
  {
    var state := ctx.UpdateNode(0, h);
    r := FinishIf(state == Finished);
  }
}
