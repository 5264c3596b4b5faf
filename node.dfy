/**
 * MicrosceneNode: a unit of work with a three-state life cycle. Subclasses
 * override the hooks OnStart and OnUpdate, which may call Complete(). What a
 * hook does is not visible here, so each call is given a HookOutcome saying
 * what that hook did this time. The model is the build with assertions on,
 * where UpdateNode catches an exception from a hook, logs it and completes
 * the node.
 */
module MicrosceneNodes {

  /** MicrosceneNodeState. */
  datatype NodeState = None | Executing | Finished

  /** What one run of an overridable hook did. */
  datatype HookOutcome =
    | Returns         // returned without calling Complete()
    | CallsComplete   // called Complete() (and returned)
    | Throws          // threw; UpdateNode logs the exception and calls Complete()

  /** The outcomes of the two hooks for one UpdateNode call. */
  datatype Hooks = Hooks(onStart: HookOutcome, onUpdate: HookOutcome)

  /** The hooks a call to UpdateNode ran, in order. */
  datatype Hook = OnStart | OnUpdate

  /** The state after one UpdateNode call and the hooks it ran. */
  datatype NodeUpdate = NodeUpdate(state: NodeState, calls: seq<Hook>)

  /** The state of a node after a hook with outcome `h` ran in state `s`. */
  function AfterHook(s: NodeState, h: HookOutcome): (r: NodeState)
    ensures h == Returns ==> r == s
    ensures h != Returns ==> r == Finished
  {
    if h == Returns then s else Finished
  }

  /** One call of UpdateNode on a node in state `s`. */
  function UpdateStep(s: NodeState, h: Hooks): (u: NodeUpdate)
    // UpdateNode never puts a node back to None, and never leaves Finished
    ensures u.state != None
    ensures s == Finished ==> u.state == Finished
  {
    if s == None then
      var started := AfterHook(Executing, h.onStart);
      if started != Finished then NodeUpdate(AfterHook(started, h.onUpdate), [OnStart, OnUpdate])
      else NodeUpdate(Finished, [OnStart])
    else
      NodeUpdate(AfterHook(s, h.onUpdate), [OnUpdate])
  }

  /** Which hooks one UpdateNode call runs, and when it leaves the node Finished. */
  lemma UpdateStepHooks(s: NodeState, h: Hooks)
    ensures var u := UpdateStep(s, h);
      // the first call after a reset starts the node and runs OnStart first
      && (s == None ==> |u.calls| > 0 && u.calls[0] == OnStart)
      // ... and runs OnUpdate in the same call iff OnStart did not complete the node
      && (s == None ==> (OnUpdate in u.calls <==> h.onStart == Returns))
      && (s == None && h.onStart == Returns && h.onUpdate == Returns ==> u.state == Executing)
      // in any other state (Finished included) only OnUpdate runs
      && (s != None ==> u.calls == [OnUpdate])
      && (s != None && h.onUpdate == Returns ==> u.state == s)
      && (u.state == Finished <==>
        s == Finished || (OnStart in u.calls && h.onStart != Returns) || (OnUpdate in u.calls && h.onUpdate != Returns))
  {
    if s == None && AfterHook(Executing, h.onStart) == Finished {
      assert UpdateStep(s, h).calls == [OnStart];
    }
  }

  /** The state after a series of UpdateNode calls with no reset between them. */
  function Run(s: NodeState, tape: seq<Hooks>): NodeState
    decreases |tape|
  {
    if tape == [] then s else Run(UpdateStep(s, tape[0]).state, tape[1..])
  }

  /** A Finished node stays Finished, however often it is updated, until ResetState. */
  lemma {:induction false} FinishedIsAbsorbing(tape: seq<Hooks>)
    ensures Run(Finished, tape) == Finished
    decreases |tape|
  {
    if tape != [] {
      FinishedIsAbsorbing(tape[1..]);
    }
  }

  /** Once a node has been updated it is never None again until ResetState. */
  lemma {:induction false} RunNeverReturnsToNone(s: NodeState, tape: seq<Hooks>)
    requires tape != []
    ensures Run(s, tape) != None
    decreases |tape|
  {
    if |tape| > 1 {
      RunNeverReturnsToNone(UpdateStep(s, tape[0]).state, tape[1..]);
    }
  }

  class Node {
    /** `State`, whose setter is private: only the members below change it. */
    var state: NodeState

    constructor ()
      ensures state == None
    {
      state := None;
    }

    method ResetState()
      modifies this
      ensures state == None
    {
      state := None;
    }

    /** Complete(), callable from the hooks. */
    method Complete()
      modifies this
      ensures state == Finished
    {
      state := Finished;
    }

    /** Runs an overridable hook whose behaviour this call is `h`. */
    method RunHook(h: HookOutcome)
      modifies this
      ensures state == AfterHook(old(state), h)
    {
      match h
      case Returns =>
      case CallsComplete => Complete();
      case Throws => Complete();  // caught by UpdateNode: logged, then Complete()
    }

    method UpdateNode(h: Hooks) returns (ghost calls: seq<Hook>)
      modifies this
      ensures NodeUpdate(state, calls) == UpdateStep(old(state), h)
    {
      if state == None {
        state := Executing;
        calls := [OnStart];
        RunHook(h.onStart);
        if state != Finished {
          calls := calls + [OnUpdate];
          RunHook(h.onUpdate);
        }
        return;
      }
      calls := [OnUpdate];
      RunHook(h.onUpdate);
    }
  }

  /** The node objects held by an array. */
  ghost function Elements(a: array<Node>): set<Node>
    reads a
  {
    set k | 0 <= k < a.Length :: a[k]
  }

  /** No node object appears twice in `a`. */
  ghost predicate Distinct(a: array<Node>)
    reads a
  {
    forall i, j :: 0 <= i < a.Length && 0 <= j < a.Length && i != j ==> a[i] != a[j]
  }

  /** The states of the nodes of `a`, in order. */
  ghost function States(a: array<Node>): (s: seq<NodeState>)
    reads a, Elements(a)
    ensures |s| == a.Length
    ensures forall k :: 0 <= k < a.Length ==> s[k] == a[k].state
  {
    seq(a.Length, k requires 0 <= k < a.Length reads a, Elements(a) => a[k].state)
  }
}
