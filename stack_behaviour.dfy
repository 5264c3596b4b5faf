/**
 * MicrosceneStackBehaviour: the base of the stack strategies, with its
 * default Start and the helpers that build a StackResult.
 */
module StackBehaviours {
  import opened MicrosceneNodes
  import opened StackContexts

  /** The default Start: does nothing. */
  method Start(ctx: StackContext)
    ensures unchanged(ctx)
    ensures unchanged(Elements(ctx.children))
  {
  }

  function FinishAndSelect(index: int): (r: StackResult)
    ensures r.finished && r.winnerIndex == index
  {
    StackResult(true, index)
  }

  function Finish(): (r: StackResult)
    ensures r.finished && r.winnerIndex == 0
  {
    StackResult(true, 0)
  }

  function FinishIf(condition: bool): (r: StackResult)
    ensures r.finished == condition && r.winnerIndex == 0
  {
    StackResult(condition, 0)
  }

  function FinishIfAndSelect(condition: bool, index: int): (r: StackResult)
    ensures r.finished == condition && r.winnerIndex == index
  {
    StackResult(condition, index)
  }

  /** Continue(): the default StackResult, not finished, output 0. */
  function Continue(): (r: StackResult)
    ensures !r.finished && r.winnerIndex == 0
  {
    StackResult(false, 0)
  }

  /** How the helpers relate: each is a special case of FinishIfAndSelect. */
  lemma HelpersAgree(condition: bool, index: int)
    ensures FinishAndSelect(index) == FinishIfAndSelect(true, index)
    ensures Finish() == FinishAndSelect(0)
    ensures FinishIf(condition) == FinishIfAndSelect(condition, 0)
    ensures FinishIf(true) == Finish() && FinishIf(false) == Continue()
  {
  }
}
