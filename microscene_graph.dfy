/**
 * The graph of a Microscene and what one tick does to one entry, on values.
 *
 * A graph entry (MicrosceneNodeData) is a group of nodes, named by their
 * indices into m_Nodes, with the entries it leads to. Action entries run in
 * parallel; precondition entries come in packs, of which the first group to
 * be met wins. The functions here state what the Microscene class does to
 * one entry or one pack; the class is proved to do exactly that.
 */
module MicrosceneGraph {
  import opened MicrosceneNodes
  import W = Wrappers

  /** MicrosceneNodeType, a `short` enum used as a set of flags. */
  newtype NodeType = x: int | -0x8000 <= x < 0x8000

  const Precondition: NodeType := 1
  const Action: NodeType := 2
  /** Hybrid = Precondition | Action. */
  const Hybrid: NodeType := ((Precondition as bv16) | (Action as bv16)) as int as NodeType

  /** MicrosceneNodeTypeAttribute: the node types a node class can be used as. */
  datatype NodeTypeAttribute = NodeTypeAttribute(nodeTypeCapabilities: NodeType)

  /** The attribute's constructor, which rejects the empty set of types. */
  function NewNodeTypeAttribute(nodeType: NodeType): (r: W.Result<NodeTypeAttribute, W.ArgumentException>)
    ensures r.Failure? <==> nodeType == 0
    ensures r.Success? ==> r.value.nodeTypeCapabilities == nodeType
  {
    if nodeType == 0 then W.Failure(W.ArgumentException("Node type can not be 0"))
    else W.Success(NodeTypeAttribute(nodeType))
  }

  /** Hybrid carries both flags and nothing else. */
  lemma HybridIsPreconditionAndAction()
    ensures Hybrid == 3
    ensures (Hybrid as bv16) & (Precondition as bv16) == Precondition as bv16
    ensures (Hybrid as bv16) & (Action as bv16) == Action as bv16
  {
  }

  /**
   * MicrosceneNodeData without its run-time `nodeState`, which the
   * Microscene class keeps in an array of its own, index for index.
   */
  datatype NodeData = NodeData(
    nodeType: NodeType,
    myNodeStack: seq<int>,
    actionConnections: seq<int>,
    branchConnections: seq<int>)

  /** The unchecked conversion of an `int` to `byte`: its low eight bits. */
  function ByteIndex(i: int): (b: int)
    ensures 0 <= b < 256
    ensures 0 <= i < 256 ==> b == i
    ensures (b - i) % 256 == 0
  {
    i % 256
  }

  /**
   * The m_Nodes indices an entry's stack refers to. Action entries read their
   * stack through a `byte` loop variable; precondition entries use the ints.
   */
  function StackIndices(d: NodeData, isAction: bool): (idx: seq<int>)
    ensures |idx| == |d.myNodeStack|
    ensures isAction ==> forall k :: 0 <= k < |idx| ==> idx[k] == ByteIndex(d.myNodeStack[k])
    ensures !isAction ==> idx == d.myNodeStack
  {
    if isAction then seq(|d.myNodeStack|, k requires 0 <= k < |d.myNodeStack| => ByteIndex(d.myNodeStack[k]))
    else d.myNodeStack
  }

  predicate IndicesIn(idx: seq<int>, n: int)
  {
    forall k :: 0 <= k < |idx| ==> 0 <= idx[k] < n
  }

  predicate NoDuplicates(idx: seq<int>)
  {
    forall a, b :: 0 <= a < b < |idx| ==> idx[a] != idx[b]
  }

  predicate IsActionEntry(graph: seq<NodeData>, nodeCount: int, e: int)
  {
    0 <= e < |graph| && graph[e].nodeType == Action && IndicesIn(StackIndices(graph[e], true), nodeCount)
  }

  predicate IsBranchEntry(graph: seq<NodeData>, nodeCount: int, e: int)
  {
    0 <= e < |graph| && graph[e].nodeType == Precondition && IndicesIn(StackIndices(graph[e], false), nodeCount)
  }

  predicate ActionEntries(graph: seq<NodeData>, nodeCount: int, list: seq<int>)
  {
    forall k :: 0 <= k < |list| ==> IsActionEntry(graph, nodeCount, list[k])
  }

  predicate BranchEntries(graph: seq<NodeData>, nodeCount: int, pack: seq<int>)
  {
    forall k :: 0 <= k < |pack| ==> IsBranchEntry(graph, nodeCount, pack[k])
  }

  /**
   * A graph as the editor saves it: every index in range, action lists name
   * Action entries and packs name Precondition entries (the types the tick
   * asserts).
   */
  predicate WellFormed(graph: seq<NodeData>, nodeCount: int, rootActions: seq<int>, rootBranches: seq<int>)
  {
    && ActionEntries(graph, nodeCount, rootActions)
    && BranchEntries(graph, nodeCount, rootBranches)
    && (forall e :: 0 <= e < |graph| ==> ActionEntries(graph, nodeCount, graph[e].actionConnections))
    && (forall e :: 0 <= e < |graph| ==> BranchEntries(graph, nodeCount, graph[e].branchConnections))
  }

  /** The node states after ResetState on the nodes idx[i..]. */
  function ResetFrom(nodes: seq<NodeState>, idx: seq<int>, i: nat): (r: seq<NodeState>)
    requires i <= |idx| && IndicesIn(idx, |nodes|)
    ensures |r| == |nodes|
    decreases |idx| - i
  {
    if i == |idx| then nodes else ResetFrom(nodes[idx[i] := None], idx, i + 1)
  }

  /** Resetting a stack resets exactly the nodes it names. */
  lemma {:induction false} ResetFromMeaning(nodes: seq<NodeState>, idx: seq<int>, i: nat)
    requires i <= |idx| && IndicesIn(idx, |nodes|)
    ensures forall n :: 0 <= n < |nodes| ==>
      ResetFrom(nodes, idx, i)[n] == if n in idx[i..] then None else nodes[n]
    decreases |idx| - i
  {
    if i < |idx| {
      ResetFromMeaning(nodes[idx[i] := None], idx, i + 1);
      assert idx[i..] == [idx[i]] + idx[i + 1..];
    }
  }

  /**
   * The node states after UpdateNode on the nodes idx[i..], in order, the
   * call numbered `calls` first, and whether each was Finished right after
   * its own update (`taken &= ...`, which does not short-circuit).
   */
  function UpdateFrom(nodes: seq<NodeState>, idx: seq<int>, i: nat, hooks: nat -> Hooks, calls: nat, taken: bool)
    : (r: (seq<NodeState>, bool))
    requires i <= |idx| && IndicesIn(idx, |nodes|)
    ensures |r.0| == |nodes|
    decreases |idx| - i
  {
    if i == |idx| then (nodes, taken)
    else
      var s := UpdateStep(nodes[idx[i]], hooks(calls)).state;
      UpdateFrom(nodes[idx[i] := s], idx, i + 1, hooks, calls + 1, taken && s == Finished)
  }

  /** One step of UpdateFrom: the update of node idx[i], then the rest of the stack. */
  lemma UpdateFromAdvance(before: seq<NodeState>, after: seq<NodeState>, idx: seq<int>, i: nat,
                          hooks: nat -> Hooks, calls: nat, taken: bool, taken': bool)
    requires i < |idx| && IndicesIn(idx, |before|)
    requires after == before[idx[i] := UpdateStep(before[idx[i]], hooks(calls)).state]
    requires taken' == (taken && after[idx[i]] == Finished)
    ensures UpdateFrom(after, idx, i + 1, hooks, calls + 1, taken') == UpdateFrom(before, idx, i, hooks, calls, taken)
  {
  }

  /** The states and the `taken` flag after the first `k` updates of a stack. */
  function UpdatePrefix(nodes: seq<NodeState>, idx: seq<int>, k: nat, hooks: nat -> Hooks, calls: nat)
    : (r: (seq<NodeState>, bool))
    requires k <= |idx| && IndicesIn(idx, |nodes|)
    ensures |r.0| == |nodes|
    decreases k
  {
    if k == 0 then (nodes, true)
    else
      var p := UpdatePrefix(nodes, idx, k - 1, hooks, calls);
      var s := UpdateStep(p.0[idx[k - 1]], hooks(calls + k - 1)).state;
      (p.0[idx[k - 1] := s], p.1 && s == Finished)
  }

  /** The first `k` updates, then the rest from position `k`, are the whole stack's update. */
  lemma {:induction false} UpdatePrefixThenRest(nodes: seq<NodeState>, idx: seq<int>, k: nat, hooks: nat -> Hooks, calls: nat)
    requires k <= |idx| && IndicesIn(idx, |nodes|)
    ensures var p := UpdatePrefix(nodes, idx, k, hooks, calls);
      UpdateFrom(p.0, idx, k, hooks, calls + k, p.1) == UpdateFrom(nodes, idx, 0, hooks, calls, true)
    decreases k
  {
    if k > 0 {
      var q := UpdatePrefix(nodes, idx, k - 1, hooks, calls);
      UpdatePrefixThenRest(nodes, idx, k - 1, hooks, calls);
      var p := UpdatePrefix(nodes, idx, k, hooks, calls);
      UpdateFromAdvance(q.0, p.0, idx, k - 1, hooks, calls + k - 1, q.1, p.1);
    }
  }

  /** Whether idx[i..] names node `n`. */
  predicate NamesFrom(idx: seq<int>, i: nat, n: int)
  {
    exists k :: i <= k < |idx| && idx[k] == n
  }

  /** Updating a stack touches no node it does not name. */
  lemma {:induction false} UpdateFromLeavesOthers(nodes: seq<NodeState>, idx: seq<int>, i: nat, hooks: nat -> Hooks, calls: nat, taken: bool, n: int)
    requires i <= |idx| && IndicesIn(idx, |nodes|)
    requires 0 <= n < |nodes| && !NamesFrom(idx, i, n)
    ensures UpdateFrom(nodes, idx, i, hooks, calls, taken).0[n] == nodes[n]
    decreases |idx| - i
  {
    if i < |idx| {
      var s := UpdateStep(nodes[idx[i]], hooks(calls)).state;
      UpdateFromLeavesOthers(nodes[idx[i] := s], idx, i + 1, hooks, calls + 1, taken && s == Finished, n);
    }
  }

  /** Updating a stack without repeated nodes updates each of them once, with the hooks of its position. */
  lemma {:induction false} UpdateFromUpdatesEach(nodes: seq<NodeState>, idx: seq<int>, i: nat, hooks: nat -> Hooks, calls: nat, taken: bool, k: int)
    requires i <= k < |idx| && IndicesIn(idx, |nodes|) && NoDuplicates(idx)
    ensures UpdateFrom(nodes, idx, i, hooks, calls, taken).0[idx[k]] == UpdateStep(nodes[idx[k]], hooks(calls + k - i)).state
    decreases |idx| - i
  {
    var s := UpdateStep(nodes[idx[i]], hooks(calls));
    var next := nodes[idx[i] := s.state];
    if k == i {
      assert !NamesFrom(idx, i + 1, idx[i]);
      UpdateFromLeavesOthers(next, idx, i + 1, hooks, calls + 1, taken && s.state == Finished, idx[i]);
    } else {
      UpdateFromUpdatesEach(next, idx, i + 1, hooks, calls + 1, taken && s.state == Finished, k);
      assert next[idx[k]] == nodes[idx[k]];
    }
  }

  /** On a stack without repeated nodes, the result says whether all its nodes are Finished afterwards. */
  lemma {:induction false} UpdateFromTaken(nodes: seq<NodeState>, idx: seq<int>, i: nat, hooks: nat -> Hooks, calls: nat, taken: bool)
    requires i <= |idx| && IndicesIn(idx, |nodes|) && NoDuplicates(idx)
    ensures var r := UpdateFrom(nodes, idx, i, hooks, calls, taken);
      r.1 <==> taken && forall k :: i <= k < |idx| ==> r.0[idx[k]] == Finished
    decreases |idx| - i
  {
    if i < |idx| {
      var s := UpdateStep(nodes[idx[i]], hooks(calls)).state;
      var next := nodes[idx[i] := s];
      UpdateFromTaken(next, idx, i + 1, hooks, calls + 1, taken && s == Finished);
      assert !NamesFrom(idx, i + 1, idx[i]);
      UpdateFromLeavesOthers(next, idx, i + 1, hooks, calls + 1, taken && s == Finished, idx[i]);
    }
  }

  /** What one visit of the tick does to one entry. */
  datatype Visit = Visit(groups: seq<NodeState>, nodes: seq<NodeState>, calls: nat, taken: bool)

  /**
   * One visit of entry `e`: an entry found None or Finished is re-armed (its
   * nodes reset, the entry Executing); an Executing entry updates its whole
   * stack and is taken when all its nodes are Finished.
   */
  function VisitGroup(graph: seq<NodeData>, groups: seq<NodeState>, nodes: seq<NodeState>, e: int, isAction: bool,
                      hooks: nat -> Hooks, calls: nat): (v: Visit)
    requires 0 <= e < |graph| == |groups|
    requires IndicesIn(StackIndices(graph[e], isAction), |nodes|)
    ensures |v.groups| == |groups| && |v.nodes| == |nodes|
  {
    var idx := StackIndices(graph[e], isAction);
    if groups[e] == Finished || groups[e] == None then
      Visit(groups[e := Executing], ResetFrom(nodes, idx, 0), calls, false)
    else
      var u := UpdateFrom(nodes, idx, 0, hooks, calls, true);
      Visit(groups, u.0, calls + |idx|, u.1)
  }

  /** An entry found None or Finished is only re-armed: its nodes are reset and no node is updated. */
  lemma VisitGroupRearms(graph: seq<NodeData>, groups: seq<NodeState>, nodes: seq<NodeState>, e: int, isAction: bool,
                         hooks: nat -> Hooks, calls: nat)
    requires 0 <= e < |graph| == |groups|
    requires IndicesIn(StackIndices(graph[e], isAction), |nodes|)
    requires groups[e] != Executing
    ensures var v := VisitGroup(graph, groups, nodes, e, isAction, hooks, calls);
      && !v.taken && v.calls == calls && v.groups == groups[e := Executing]
      && forall n :: 0 <= n < |nodes| ==> v.nodes[n] == if n in StackIndices(graph[e], isAction) then None else nodes[n]
  {
    var idx := StackIndices(graph[e], isAction);
    assert idx[0..] == idx;
    ResetFromMeaning(nodes, idx, 0);
  }

  /**
   * An Executing entry updates every node of its stack, with no short
   * circuit, and is taken exactly when all of them are Finished afterwards.
   */
  lemma VisitGroupUpdates(graph: seq<NodeData>, groups: seq<NodeState>, nodes: seq<NodeState>, e: int, isAction: bool,
                          hooks: nat -> Hooks, calls: nat)
    requires 0 <= e < |graph| == |groups|
    requires IndicesIn(StackIndices(graph[e], isAction), |nodes|)
    requires groups[e] == Executing && NoDuplicates(StackIndices(graph[e], isAction))
    ensures var v := VisitGroup(graph, groups, nodes, e, isAction, hooks, calls);
      var idx := StackIndices(graph[e], isAction);
      && v.groups == groups && v.calls == calls + |idx|
      && (forall n :: 0 <= n < |nodes| && n !in idx ==> v.nodes[n] == nodes[n])
      && (forall k :: 0 <= k < |idx| ==> v.nodes[idx[k]] == UpdateStep(nodes[idx[k]], hooks(calls + k)).state)
      && (v.taken <==> forall k :: 0 <= k < |idx| ==> v.nodes[idx[k]] == Finished)
  {
    var idx := StackIndices(graph[e], isAction);
    UpdateFromTaken(nodes, idx, 0, hooks, calls, true);
    forall n | 0 <= n < |nodes| && n !in idx
      ensures UpdateFrom(nodes, idx, 0, hooks, calls, true).0[n] == nodes[n]
    {
      UpdateFromLeavesOthers(nodes, idx, 0, hooks, calls, true, n);
    }
    forall k | 0 <= k < |idx|
      ensures UpdateFrom(nodes, idx, 0, hooks, calls, true).0[idx[k]] == UpdateStep(nodes[idx[k]], hooks(calls + k)).state
    {
      UpdateFromUpdatesEach(nodes, idx, 0, hooks, calls, true, k);
    }
  }

  /** What one visit of a pack does; `winner` is the position of the group taken, if any. */
  datatype PackVisit = PackVisit(groups: seq<NodeState>, nodes: seq<NodeState>, calls: nat, winner: W.Option<nat>)

  /** The visit of the groups pack[i..] in order, stopping at the first one taken. */
  function VisitPackFrom(graph: seq<NodeData>, groups: seq<NodeState>, nodes: seq<NodeState>, pack: seq<int>, i: nat,
                         hooks: nat -> Hooks, calls: nat): (p: PackVisit)
    requires i <= |pack| && |groups| == |graph| && BranchEntries(graph, |nodes|, pack)
    ensures |p.groups| == |groups| && |p.nodes| == |nodes|
    ensures p.winner.Some? ==> i <= p.winner.value < |pack|
    decreases |pack| - i
  {
    if i == |pack| then PackVisit(groups, nodes, calls, W.None)
    else
      var v := VisitGroup(graph, groups, nodes, pack[i], false, hooks, calls);
      if v.taken then PackVisit(v.groups, v.nodes, v.calls, W.Some(i))
      else VisitPackFrom(graph, v.groups, v.nodes, pack, i + 1, hooks, v.calls)
  }

  /** A pack visit changes the state of no entry it does not visit. */
  lemma {:induction false} VisitPackLeavesGroup(graph: seq<NodeData>, groups: seq<NodeState>, nodes: seq<NodeState>, pack: seq<int>, i: nat,
                                                hooks: nat -> Hooks, calls: nat, g: int)
    requires i <= |pack| && |groups| == |graph| && BranchEntries(graph, |nodes|, pack) && 0 <= g < |groups|
    ensures var p := VisitPackFrom(graph, groups, nodes, pack, i, hooks, calls);
      var last := if p.winner.Some? then p.winner.value + 1 else |pack|;
      (forall m :: i <= m < last ==> pack[m] != g) ==> p.groups[g] == groups[g]
    decreases |pack| - i
  {
    if i < |pack| {
      assert IsBranchEntry(graph, |nodes|, pack[i]);
      var v := VisitGroup(graph, groups, nodes, pack[i], false, hooks, calls);
      if !v.taken {
        var p := VisitPackFrom(graph, groups, nodes, pack, i, hooks, calls);
        assert p == VisitPackFrom(graph, v.groups, v.nodes, pack, i + 1, hooks, v.calls);
        VisitPackLeavesGroup(graph, v.groups, v.nodes, pack, i + 1, hooks, v.calls, g);
      }
    }
  }

  /**
   * The groups after the winner are not examined: an entry outside the
   * groups visited keeps its state. An empty pack never has a winner.
   */
  lemma VisitPackMeaning(graph: seq<NodeData>, groups: seq<NodeState>, nodes: seq<NodeState>, pack: seq<int>, i: nat,
                         hooks: nat -> Hooks, calls: nat)
    requires i <= |pack| && |groups| == |graph| && BranchEntries(graph, |nodes|, pack)
    ensures var p := VisitPackFrom(graph, groups, nodes, pack, i, hooks, calls);
      && (i == |pack| ==> p.winner.None?)
      && (p.winner.Some? ==> i <= p.winner.value < |pack|)
      && var last := if p.winner.Some? then p.winner.value + 1 else |pack|;
         forall g :: 0 <= g < |groups| && g !in pack[i..last] ==> p.groups[g] == groups[g]
  {
    var p := VisitPackFrom(graph, groups, nodes, pack, i, hooks, calls);
    var last := if p.winner.Some? then p.winner.value + 1 else |pack|;
    forall g | 0 <= g < |groups| && g !in pack[i..last]
      ensures p.groups[g] == groups[g]
    {
      forall m | i <= m < last
        ensures pack[m] != g
      {
        assert pack[m] == pack[i..last][m - i];
      }
      VisitPackLeavesGroup(graph, groups, nodes, pack, i, hooks, calls, g);
    }
  }

  /** The visit of group pack[m] from the state `v`. */
  function VisitGroupAt(graph: seq<NodeData>, v: Visit, pack: seq<int>, m: nat, hooks: nat -> Hooks): (r: Visit)
    requires m < |pack| && |v.groups| == |graph| && BranchEntries(graph, |v.nodes|, pack)
    ensures |r.groups| == |v.groups| && |r.nodes| == |v.nodes|
  {
    assert IsBranchEntry(graph, |v.nodes|, pack[m]);
    VisitGroup(graph, v.groups, v.nodes, pack[m], false, hooks, v.calls)
  }

  /** The state reached by visiting the groups pack[i..j] in order, whatever each visit's outcome. */
  function PackAfter(graph: seq<NodeData>, v: Visit, pack: seq<int>, i: nat, j: nat, hooks: nat -> Hooks): (r: Visit)
    requires i <= j <= |pack| && |v.groups| == |graph| && BranchEntries(graph, |v.nodes|, pack)
    ensures |r.groups| == |v.groups| && |r.nodes| == |v.nodes|
    decreases j - i
  {
    if i == j then v else PackAfter(graph, VisitGroupAt(graph, v, pack, i, hooks), pack, i + 1, j, hooks)
  }

  /**
   * The OR of a pack: the winner is the first group, in pack order, that is
   * taken when its turn comes; every group before it was visited and not
   * taken, and the visit ends with the winner's own visit. Without a winner
   * every group was visited and none was taken.
   */
  lemma {:induction false} VisitPackWinner(graph: seq<NodeData>, groups: seq<NodeState>, nodes: seq<NodeState>, pack: seq<int>, i: nat,
                                           hooks: nat -> Hooks, calls: nat)
    requires i <= |pack| && |groups| == |graph| && BranchEntries(graph, |nodes|, pack)
    ensures var p := VisitPackFrom(graph, groups, nodes, pack, i, hooks, calls);
      var start := Visit(groups, nodes, calls, false);
      && (p.winner.Some? ==>
        var w := p.winner.value;
        && i <= w < |pack|
        && (forall m :: i <= m < w ==> !VisitGroupAt(graph, PackAfter(graph, start, pack, i, m, hooks), pack, m, hooks).taken)
        && var v := VisitGroupAt(graph, PackAfter(graph, start, pack, i, w, hooks), pack, w, hooks);
           v.taken && p == PackVisit(v.groups, v.nodes, v.calls, W.Some(w)))
      && (p.winner.None? ==>
        && (forall m :: i <= m < |pack| ==> !VisitGroupAt(graph, PackAfter(graph, start, pack, i, m, hooks), pack, m, hooks).taken)
        && var e := PackAfter(graph, start, pack, i, |pack|, hooks);
           p == PackVisit(e.groups, e.nodes, e.calls, W.None))
    decreases |pack| - i
  {
    var start := Visit(groups, nodes, calls, false);
    assert PackAfter(graph, start, pack, i, i, hooks) == start;
    if i < |pack| {
      var v := VisitGroupAt(graph, start, pack, i, hooks);
      if !v.taken {
        assert v == Visit(v.groups, v.nodes, v.calls, false);
        VisitPackWinner(graph, v.groups, v.nodes, pack, i + 1, hooks, v.calls);
        assert VisitPackFrom(graph, groups, nodes, pack, i, hooks, calls)
          == VisitPackFrom(graph, v.groups, v.nodes, pack, i + 1, hooks, v.calls);
        forall m | i + 1 <= m <= |pack|
          ensures PackAfter(graph, start, pack, i, m, hooks) == PackAfter(graph, v, pack, i + 1, m, hooks)
        {
        }
      }
    }
  }

  /** A visit of one group changes no node outside that group's stack. */
  lemma VisitGroupLeavesNode(graph: seq<NodeData>, groups: seq<NodeState>, nodes: seq<NodeState>, e: int, isAction: bool,
                             hooks: nat -> Hooks, calls: nat, n: int)
    requires 0 <= e < |graph| == |groups|
    requires IndicesIn(StackIndices(graph[e], isAction), |nodes|)
    requires 0 <= n < |nodes| && n !in StackIndices(graph[e], isAction)
    ensures VisitGroup(graph, groups, nodes, e, isAction, hooks, calls).nodes[n] == nodes[n]
  {
    var idx := StackIndices(graph[e], isAction);
    if groups[e] == Finished || groups[e] == None {
      assert idx[0..] == idx;
      ResetFromMeaning(nodes, idx, 0);
    } else {
      UpdateFromLeavesOthers(nodes, idx, 0, hooks, calls, true, n);
    }
  }

  /** Whether node `n` is in the stack of precondition entry `e`. */
  predicate InBranchStack(graph: seq<NodeData>, e: int, n: int)
  {
    0 <= e < |graph| && n in StackIndices(graph[e], false)
  }

  /** A pack visit changes no node outside the stacks of the groups it visits. */
  lemma {:induction false} VisitPackLeavesNode(graph: seq<NodeData>, groups: seq<NodeState>, nodes: seq<NodeState>, pack: seq<int>, i: nat,
                                               hooks: nat -> Hooks, calls: nat, n: int)
    requires i <= |pack| && |groups| == |graph| && BranchEntries(graph, |nodes|, pack) && 0 <= n < |nodes|
    ensures var p := VisitPackFrom(graph, groups, nodes, pack, i, hooks, calls);
      var last := if p.winner.Some? then p.winner.value + 1 else |pack|;
      (forall m :: i <= m < last ==> !InBranchStack(graph, pack[m], n)) ==> p.nodes[n] == nodes[n]
    decreases |pack| - i
  {
    if i < |pack| {
      assert IsBranchEntry(graph, |nodes|, pack[i]);
      var v := VisitGroup(graph, groups, nodes, pack[i], false, hooks, calls);
      var p := VisitPackFrom(graph, groups, nodes, pack, i, hooks, calls);
      var last := if p.winner.Some? then p.winner.value + 1 else |pack|;
      if forall m :: i <= m < last ==> !InBranchStack(graph, pack[m], n) {
        VisitGroupLeavesNode(graph, groups, nodes, pack[i], false, hooks, calls, n);
        if !v.taken {
          assert p == VisitPackFrom(graph, v.groups, v.nodes, pack, i + 1, hooks, v.calls);
          VisitPackLeavesNode(graph, v.groups, v.nodes, pack, i + 1, hooks, v.calls, n);
        }
      }
    }
  }

  /** The entries and packs still to run, in order. */
  datatype WorkLists = WorkLists(actions: seq<int>, branches: seq<seq<int>>)

  /** Which of the two lists AdvanceNode removes from. */
  datatype WorkList = Actions | Branches

  /** `list` without its element at `j` (List.RemoveAt). */
  function RemoveAt<T>(list: seq<T>, j: int): (r: seq<T>)
    requires 0 <= j < |list|
    ensures |r| == |list| - 1
    ensures forall k :: 0 <= k < j ==> r[k] == list[k]
    ensures forall k :: j <= k < |r| ==> r[k] == list[k + 1]
  {
    list[..j] + list[j + 1..]
  }

  /** The pack an entry adds: its branchConnections, unless there are none. */
  function NewPacks(d: NodeData): (r: seq<seq<int>>)
    ensures |d.branchConnections| > 0 ==> r == [d.branchConnections]
    ensures |d.branchConnections| == 0 ==> r == []
  {
    if |d.branchConnections| > 0 then [d.branchConnections] else []
  }

  /**
   * The work lists after AdvanceNode on entry `d`, found at position `j` of
   * `from`: exactly that element is removed, the entry's action connections
   * are appended to the actions and its branch connections become one new pack.
   */
  function Advance(lists: WorkLists, from: WorkList, j: int, d: NodeData): (r: WorkLists)
    requires from == Actions ==> 0 <= j < |lists.actions|
    requires from == Branches ==> 0 <= j < |lists.branches|
    ensures from == Actions ==> r.actions == RemoveAt(lists.actions, j) + d.actionConnections
    ensures from == Actions ==> r.branches == lists.branches + NewPacks(d)
    ensures from == Branches ==> r.actions == lists.actions + d.actionConnections
    ensures from == Branches ==> r.branches == RemoveAt(lists.branches, j) + NewPacks(d)
  {
    match from
    case Actions => WorkLists(RemoveAt(lists.actions, j) + d.actionConnections, lists.branches + NewPacks(d))
    case Branches => WorkLists(lists.actions + d.actionConnections, RemoveAt(lists.branches, j) + NewPacks(d))
  }

  /** Advancing keeps every list entry one the tick can run. */
  lemma AdvanceKeepsEntries(graph: seq<NodeData>, nodeCount: int, rootActions: seq<int>, rootBranches: seq<int>,
                            lists: WorkLists, from: WorkList, j: int, e: int)
    requires WellFormed(graph, nodeCount, rootActions, rootBranches)
    requires 0 <= e < |graph|
    requires from == Actions ==> 0 <= j < |lists.actions|
    requires from == Branches ==> 0 <= j < |lists.branches|
    requires ActionEntries(graph, nodeCount, lists.actions)
    requires forall p :: p in lists.branches ==> BranchEntries(graph, nodeCount, p)
    ensures var r := Advance(lists, from, j, graph[e]);
      && ActionEntries(graph, nodeCount, r.actions)
      && forall p :: p in r.branches ==> BranchEntries(graph, nodeCount, p)
  {
    var r := Advance(lists, from, j, graph[e]);
    assert ActionEntries(graph, nodeCount, graph[e].actionConnections);
    assert BranchEntries(graph, nodeCount, graph[e].branchConnections);
    forall p | p in r.branches
      ensures BranchEntries(graph, nodeCount, p)
    {
      if from == Branches {
        assert p in lists.branches[..j] + lists.branches[j + 1..] + NewPacks(graph[e]);
      }
    }
  }

  /**
   * AdvanceNode removes exactly one element, the one at `j`, from the list
   * it is given; every other element stays, and only the successors are added.
   */
  lemma AdvanceRemovesExactlyOne(lists: WorkLists, from: WorkList, j: int, d: NodeData)
    requires from == Actions ==> 0 <= j < |lists.actions|
    requires from == Branches ==> 0 <= j < |lists.branches|
    ensures var r := Advance(lists, from, j, d);
      && (from == Actions ==>
            multiset(r.actions) + multiset{lists.actions[j]} == multiset(lists.actions) + multiset(d.actionConnections))
      && (from == Branches ==>
            multiset(r.branches) + multiset{lists.branches[j]} == multiset(lists.branches) + multiset(NewPacks(d)))
  {
    if from == Actions {
      assert lists.actions == lists.actions[..j] + [lists.actions[j]] + lists.actions[j + 1..];
    } else {
      assert lists.branches == lists.branches[..j] + [lists.branches[j]] + lists.branches[j + 1..];
    }
  }

  /**
   * A pack leaves the branch list only by winning, which an empty pack never
   * does: once an empty pack is in the list, no advance removes it.
   */
  lemma AdvanceKeepsEmptyPack(lists: WorkLists, from: WorkList, j: int, d: NodeData)
    requires from == Actions ==> 0 <= j < |lists.actions|
    requires from == Branches ==> 0 <= j < |lists.branches| && lists.branches[j] != []
    requires [] in lists.branches
    ensures [] in Advance(lists, from, j, d).branches
  {
    var r := Advance(lists, from, j, d);
    if from == Branches {
      AdvanceRemovesExactlyOne(lists, from, j, d);
      assert multiset(lists.branches)[[]] > 0;
      assert multiset(r.branches)[[]] > 0;
    }
  }
}
