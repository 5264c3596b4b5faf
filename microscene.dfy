/**
 * Microscene: the component that runs a graph. Two work lists hold what is
 * running: `executingActions`, indices of action entries, and
 * `executingBranches`, packs of precondition entries. LateUpdate walks both
 * lists once per frame by index, removing finished entries in place and
 * appending their successors to the lists it is walking.
 *
 * The graph (m_RootActions, m_RootBranches, m_NodeData, m_Nodes) is fixed
 * once loaded. The run-time field nodeState of each m_NodeData element is
 * kept in the array `nodeStates`, at the same index.
 */
module Microscenes {
  import opened MicrosceneNodes
  import opened MicrosceneGraph

  class Microscene {
    var executingActions: seq<int>
    var executingBranches: seq<seq<int>>

    /** m_RootActions and m_RootBranches: the connections of the entry node. */
    const rootActions: seq<int>
    const rootBranches: seq<int>
    /** m_NodeData, without nodeState. */
    const nodeData: seq<NodeData>
    /** m_NodeData[i].nodeState. */
    const nodeStates: array<NodeState>
    /** m_Nodes. */
    const nodes: array<Node>

    ghost predicate Valid()
      reads this, nodes
    {
      && nodeStates.Length == |nodeData|
      && Distinct(nodes)
      && WellFormed(nodeData, nodes.Length, rootActions, rootBranches)
      && ActionEntries(nodeData, nodes.Length, executingActions)
      && (forall p :: p in executingBranches ==> BranchEntries(nodeData, nodes.Length, p))
    }

    ghost function Lists(): WorkLists
      reads this
    {
      WorkLists(executingActions, executingBranches)
    }

    /** A loaded graph, before anything has started. */
    constructor (rootActions: seq<int>, rootBranches: seq<int>, nodeData: seq<NodeData>, nodes: array<Node>)
      requires Distinct(nodes) && WellFormed(nodeData, nodes.Length, rootActions, rootBranches)
      ensures Valid() && fresh(nodeStates)
      ensures this.rootActions == rootActions && this.rootBranches == rootBranches
      ensures this.nodeData == nodeData && this.nodes == nodes
      ensures executingActions == [] && executingBranches == []
      ensures forall i :: 0 <= i < nodeStates.Length ==> nodeStates[i] == None
    {
      this.rootActions := rootActions;
      this.rootBranches := rootBranches;
      this.nodeData := nodeData;
      this.nodes := nodes;
      nodeStates := new NodeState[|nodeData|](_ => None);
      executingActions := [];
      executingBranches := [];
    }

    function IsExecutingAnyNode(): (r: bool)
      reads this
      ensures r <==> |executingActions| > 0 || |executingBranches| > 0
    {
      |executingActions| > 0 || |executingBranches| > 0
    }

    /** Starts or restarts the graph from the entry node. */
    method StartExecutingMicroscene()
      requires Valid()
      modifies this, nodeStates
      ensures Valid()
      ensures executingActions == rootActions && executingBranches == [rootBranches]
      // entry states are cleared only when something was still running
      ensures old(IsExecutingAnyNode()) ==> forall i :: 0 <= i < nodeStates.Length ==> nodeStates[i] == None
      ensures !old(IsExecutingAnyNode()) ==> nodeStates[..] == old(nodeStates[..])
    {
      if IsExecutingAnyNode() {
        for i := 0 to nodeStates.Length
          invariant forall k :: 0 <= k < i ==> nodeStates[k] == None
        {
          nodeStates[i] := None;
        }
      }
      executingActions := [];
      executingBranches := [];
      executingActions := executingActions + rootActions;
      executingBranches := executingBranches + [rootBranches];
    }

    method ResetNodeAt(c: int)
      requires Distinct(nodes) && 0 <= c < nodes.Length
      modifies nodes[c]
      ensures States(nodes) == old(States(nodes))[c := None]
    {
      nodes[c].ResetState();
      forall k | 0 <= k < nodes.Length && k != c
        ensures nodes[k].state == old(nodes[k].state)
      {
        assert nodes[k] != nodes[c];
      }
    }

    method UpdateNodeAt(c: int, h: Hooks)
      requires Distinct(nodes) && 0 <= c < nodes.Length
      modifies nodes[c]
      ensures States(nodes) == old(States(nodes))[c := UpdateStep(old(nodes[c].state), h).state]
    {
      var _ := nodes[c].UpdateNode(h);
      forall k | 0 <= k < nodes.Length && k != c
        ensures nodes[k].state == old(nodes[k].state)
      {
        assert nodes[k] != nodes[c];
      }
    }

    /** ResetState on every node of entry `e`'s stack, in order. */
    method ResetStack(e: int, isAction: bool)
      requires Distinct(nodes) && 0 <= e < |nodeData|
      requires IndicesIn(StackIndices(nodeData[e], isAction), nodes.Length)
      modifies Elements(nodes)
      ensures States(nodes) == ResetFrom(old(States(nodes)), StackIndices(nodeData[e], isAction), 0)
    {
      var stack := nodeData[e].myNodeStack;
      ghost var idx := StackIndices(nodeData[e], isAction);
      ghost var start := States(nodes);
      for k := 0 to |stack|
        invariant ResetFrom(States(nodes), idx, k) == ResetFrom(start, idx, 0)
      {
        var c := if isAction then ByteIndex(stack[k]) else stack[k];
        assert c == idx[k];
        ResetNodeAt(c);
      }
    }

    /**
     * UpdateNode on every node of entry `e`'s stack, in order, numbering the
     * calls from `calls`; `taken` says whether each node was Finished right
     * after its own update.
     */
    method UpdateStack(e: int, isAction: bool, hooks: nat -> Hooks, calls: nat) returns (taken: bool)
      requires Distinct(nodes) && 0 <= e < |nodeData|
      requires IndicesIn(StackIndices(nodeData[e], isAction), nodes.Length)
      modifies Elements(nodes)
      ensures (States(nodes), taken) == UpdateFrom(old(States(nodes)), StackIndices(nodeData[e], isAction), 0, hooks, calls, true)
    {
      var stack := nodeData[e].myNodeStack;
      ghost var idx := StackIndices(nodeData[e], isAction);
      ghost var start := States(nodes);
      taken := true;
      for k := 0 to |stack|
        invariant (States(nodes), taken) == UpdatePrefix(start, idx, k, hooks, calls)
      {
        var c := if isAction then ByteIndex(stack[k]) else stack[k];
        assert c == idx[k];
        UpdateNodeAt(c, hooks(calls + k));
        taken := taken && nodes[c].state == Finished;
      }
      UpdatePrefixThenRest(start, idx, |stack|, hooks, calls);
    }

    /**
     * The body of either loop of LateUpdate for one entry `e`: re-arm it, or
     * update its whole stack; `taken` says whether it is done. Node updates
     * are numbered from `calls`, and update number n runs with `hooks(n)`.
     */
    method VisitEntry(e: int, isAction: bool, hooks: nat -> Hooks, calls: nat) returns (taken: bool, calls': nat)
      requires Valid()
      requires isAction ==> IsActionEntry(nodeData, nodes.Length, e)
      requires !isAction ==> IsBranchEntry(nodeData, nodes.Length, e)
      modifies nodeStates, Elements(nodes)
      ensures Visit(nodeStates[..], States(nodes), calls', taken)
        == VisitGroup(nodeData, old(nodeStates[..]), old(States(nodes)), e, isAction, hooks, calls)
    {
      if nodeStates[e] == Finished || nodeStates[e] == None {
        ResetStack(e, isAction);
        nodeStates[e] := Executing;
        return false, calls;
      }
      taken := UpdateStack(e, isAction, hooks, calls);
      calls' := calls + |nodeData[e].myNodeStack|;
    }

    /**
     * AdvanceNode(ref j, ref node, list): marks entry `e` Finished, removes
     * element `j` of its list and decrements `j`, and appends the entry's
     * successors.
     */
    method AdvanceNode(j: int, e: int, from: WorkList) returns (j': int)
      requires Valid() && 0 <= e < |nodeData|
      requires from == Actions ==> 0 <= j < |executingActions|
      requires from == Branches ==> 0 <= j < |executingBranches|
      modifies this, nodeStates
      ensures Valid()
      ensures nodeStates[..] == old(nodeStates[..])[e := Finished]
      ensures Lists() == Advance(old(Lists()), from, j, nodeData[e])
      ensures j' == j - 1
    {
      AdvanceKeepsEntries(nodeData, nodes.Length, rootActions, rootBranches, Lists(), from, j, e);
      var node := nodeData[e];
      nodeStates[e] := Finished;
      if from == Actions {
        executingActions := RemoveAt(executingActions, j);
      } else {
        executingBranches := RemoveAt(executingBranches, j);
      }
      j' := j - 1;
      if |node.actionConnections| > 0 {
        executingActions := executingActions + node.actionConnections;
      }
      if |node.branchConnections| > 0 {
        executingBranches := executingBranches + [node.branchConnections];
      }
    }

    /**
     * One iteration of the action loop of LateUpdate, at position `j`;
     * `next` is the position the loop goes on with.
     */
    method ActionStep(j: int, hooks: nat -> Hooks, calls: nat) returns (next: int, calls': nat)
      requires Valid() && 0 <= j < |executingActions|
      modifies this, nodeStates, Elements(nodes)
      ensures Valid()
      ensures var e := old(executingActions[j]);
        var v := VisitGroup(nodeData, old(nodeStates[..]), old(States(nodes)), e, true, hooks, calls);
        && States(nodes) == v.nodes && calls' == v.calls
        && (v.taken ==> nodeStates[..] == v.groups[e := Finished]
                        && Lists() == Advance(old(Lists()), Actions, j, nodeData[e]) && next == j)
        && (!v.taken ==> nodeStates[..] == v.groups && Lists() == old(Lists()) && next == j + 1)
      ensures [] in old(executingBranches) ==> [] in executingBranches
    {
      var e := executingActions[j];
      var taken;
      taken, calls' := VisitEntry(e, true, hooks, calls);
      if taken {
        if [] in executingBranches {
          AdvanceKeepsEmptyPack(Lists(), Actions, j, nodeData[e]);
        }
        next := AdvanceNode(j, e, Actions);
        next := next + 1;
      } else {
        next := j + 1;
      }
    }

    /**
     * One iteration of the branch loop of LateUpdate, on the pack at position
     * `j`: its groups are visited in order until one is taken, which advances
     * and removes the whole pack.
     */
    method BranchStep(j: int, hooks: nat -> Hooks, calls: nat) returns (next: int, calls': nat)
      requires Valid() && 0 <= j < |executingBranches|
      modifies this, nodeStates, Elements(nodes)
      ensures Valid()
      ensures var pack := old(executingBranches[j]);
        var p := VisitPackFrom(nodeData, old(nodeStates[..]), old(States(nodes)), pack, 0, hooks, calls);
        && States(nodes) == p.nodes && calls' == p.calls
        && (p.winner.Some? ==> p.winner.value < |pack|
                               && nodeStates[..] == p.groups[pack[p.winner.value] := Finished]
                               && Lists() == Advance(old(Lists()), Branches, j, nodeData[pack[p.winner.value]])
                               && next == j)
        && (p.winner.None? ==> nodeStates[..] == p.groups && Lists() == old(Lists()) && next == j + 1)
      ensures [] in old(executingBranches) ==> [] in executingBranches
    {
      var pack := executingBranches[j];
      assert BranchEntries(nodeData, nodes.Length, pack);
      ghost var groups0, nodes0 := nodeStates[..], States(nodes);
      calls' := calls;
      for i := 0 to |pack|
        invariant Valid() && Lists() == old(Lists())
        invariant VisitPackFrom(nodeData, nodeStates[..], States(nodes), pack, i, hooks, calls')
          == VisitPackFrom(nodeData, groups0, nodes0, pack, 0, hooks, calls)
      {
        var taken;
        taken, calls' := VisitEntry(pack[i], false, hooks, calls');
        if taken {
          VisitPackMeaning(nodeData, groups0, nodes0, pack, 0, hooks, calls);
          if [] in executingBranches {
            AdvanceKeepsEmptyPack(Lists(), Branches, j, nodeData[pack[i]]);
          }
          next := AdvanceNode(j, pack[i], Branches);
          next := next + 1;
          return;
        }
      }
      next := j + 1;
    }

    /**
     * LateUpdate: one pass over the packs, then one over the actions. Either
     * loop stops after `fuel` iterations: with hooks that keep completing at
     * once, a graph that feeds an entry back to itself twice makes the source
     * loop without end.
     */
    method LateUpdate(hooks: nat -> Hooks, fuel: nat) returns (calls: nat)
      requires Valid()
      modifies this, nodeStates, Elements(nodes)
      ensures Valid()
      // an empty pack never wins, so it is never removed and the graph never stops
      ensures [] in old(executingBranches) ==> [] in executingBranches && IsExecutingAnyNode()
    {
      calls := 0;
      var j, budget := 0, fuel;
      while j < |executingBranches| && budget > 0
        invariant Valid() && 0 <= j <= |executingBranches|
        invariant [] in old(executingBranches) ==> [] in executingBranches
        decreases budget
      {
        j, calls := BranchStep(j, hooks, calls);
        budget := budget - 1;
      }
      j, budget := 0, fuel;
      while j < |executingActions| && budget > 0
        invariant Valid() && 0 <= j <= |executingActions|
        invariant [] in old(executingBranches) ==> [] in executingBranches
        decreases budget
      {
        j, calls := ActionStep(j, hooks, calls);
        budget := budget - 1;
      }
    }
  }
}
