/**
 * MicrosceneStackResult and MicrosceneStackContext: what a stack behaviour
 * returns, and the handle through which it updates the nodes of its stack.
 */
module StackContexts {
  import opened MicrosceneNodes

  /** MicrosceneStackResult: whether the stack is done and which output wins. */
  datatype StackResult = StackResult(finished: bool, winnerIndex: int)

  class StackContext {
    /** sceneContext.CurrentNode: the node being updated, kept for diagnostics. */
    var currentNode: Node?
    /** childrenNodes: the nodes of the stack. */
    const children: array<Node>

    constructor (children: array<Node>)
      ensures this.children == children && currentNode == null
    {
      this.children := children;
      currentNode := null;
    }

    function StackLength(): (n: int)
      reads this
      ensures n == children.Length
    {
      children.Length
    }

    /** Updates child `index` only and returns its state afterwards. */
    method UpdateNode(index: int, h: Hooks) returns (s: NodeState)
      requires 0 <= index < children.Length
      modifies this`currentNode, children[index]
      ensures currentNode == children[index]
      ensures children[index].state == UpdateStep(old(children[index].state), h).state
      ensures s == children[index].state
      // when the children are distinct objects, no other child changes
      ensures Distinct(children) ==> States(children) == old(States(children))[index := s]
    {
      currentNode := children[index];
      var _ := children[index].UpdateNode(h);
      s := children[index].state;
      if Distinct(children) {
        forall k | 0 <= k < children.Length && k != index
          ensures children[k].state == old(children[k].state)
        {
          assert children[k] != children[index];
        }
      }
    }
  }
}
