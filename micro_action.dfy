/**
 * MicroAction: an action with a None -> Running -> Completed life cycle.
 * Its hooks OnStartExecute and OnUpdateExecution may call Complete(), and
 * may throw; what the hook run by a call does is given as an ActionHooks value.
 */
module MicroActions {

  /** MicroActionState. */
  datatype ActionState = None | Running | Completed

  /**
   * Whether each hook calls Complete() when it runs, and whether the hook run
   * by this call throws (after any Complete() it makes).
   */
  datatype ActionHooks = ActionHooks(onStartExecute: bool, onUpdateExecution: bool, throws: bool)

  /** The hook a call to UpdateExecute ran. */
  datatype ActionHook = OnStartExecute | OnUpdateExecution

  /** How a call to UpdateExecute ends: it returns a value, or the hook's exception escapes. */
  datatype Outcome = Returned(done: bool) | Threw

  /** The state after one UpdateExecute call, the hook it ran and how the call ended. */
  datatype Execution = Execution(state: ActionState, ran: ActionHook, outcome: Outcome)

  /** EmptyAction completes in OnStartExecute and keeps the base OnUpdateExecution. */
  const EmptyActionHooks := ActionHooks(true, false, false)

  /** One call of UpdateExecute in state `s`. */
  function ExecuteStep(s: ActionState, h: ActionHooks): (e: Execution)
    // the first call after Reset runs only OnStartExecute, later calls only OnUpdateExecution
    ensures e.ran == (if s == None then OnStartExecute else OnUpdateExecution)
    // UpdateExecute has no catch: a hook's exception escapes the call
    ensures e.outcome.Threw? <==> h.throws
    // a call that returns, returns true iff the action is Completed after it
    ensures e.outcome.Returned? ==> (e.outcome.done <==> e.state == Completed)
    // Completed is left only by Reset; the state the hook leaves is kept even when it throws
    ensures s == Completed ==> e.state == Completed
    ensures e.state != None
    ensures e.state == Completed <==>
      s == Completed || (e.ran == OnStartExecute && h.onStartExecute) || (e.ran == OnUpdateExecution && h.onUpdateExecution)
  {
    if s == None then
      var s' := if h.onStartExecute then Completed else Running;
      Execution(s', OnStartExecute, if h.throws then Threw else Returned(s' == Completed))
    else
      var s' := if h.onUpdateExecution then Completed else s;
      Execution(s', OnUpdateExecution, if h.throws then Threw else Returned(s' == Completed))
  }

  /** How a series of UpdateExecute calls ends, with no Reset between them. */
  function Results(s: ActionState, tape: seq<ActionHooks>): (r: seq<Outcome>)
    ensures |r| == |tape|
    decreases |tape|
  {
    if tape == [] then []
    else
      var e := ExecuteStep(s, tape[0]);
      [e.outcome] + Results(e.state, tape[1..])
  }

  /** A completed action keeps returning true until it is Reset, except on a call whose hook throws. */
  lemma {:induction false} CompletedKeepsReturningTrue(tape: seq<ActionHooks>)
    ensures forall k :: 0 <= k < |tape| ==>
      Results(Completed, tape)[k] == (if tape[k].throws then Threw else Returned(true))
    decreases |tape|
  {
    if tape != [] {
      CompletedKeepsReturningTrue(tape[1..]);
    }
  }

  /** After Reset, every UpdateExecute of an EmptyAction returns true, the first one included. */
  lemma EmptyActionIsDoneAtOnce(tape: seq<ActionHooks>)
    requires forall k :: 0 <= k < |tape| ==> tape[k] == EmptyActionHooks
    ensures var r := Results(None, tape); forall k :: 0 <= k < |r| ==> r[k] == Returned(true)
  {
    if tape != [] {
      CompletedKeepsReturningTrue(tape[1..]);
    }
  }

  /**
   * An OnStartExecute that throws before completing leaves the action Running,
   * so the next call runs OnUpdateExecution and OnStartExecute is not retried.
   */
  lemma {:induction false} ThrowingStartIsNotRetried(tape: seq<ActionHooks>)
    requires |tape| >= 2 && tape[0].throws && !tape[0].onStartExecute
    ensures Results(None, tape)[0] == Threw
    ensures ExecuteStep(None, tape[0]).state == Running
    ensures ExecuteStep(Running, tape[1]).ran == OnUpdateExecution
    ensures Results(None, tape)[1] == ExecuteStep(Running, tape[1]).outcome
  {
    assert Results(None, tape)[1..] == Results(Running, tape[1..]);
  }

  class MicroAction {
    var state: ActionState

    constructor ()
      ensures state == None
    {
      state := None;
    }

    /** Reset(ctx); the context is not used. */
    method Reset()
      modifies this
      ensures state == None
    {
      state := None;
    }

    /** Complete(), callable from the hooks. */
    method Complete()
      modifies this
      ensures state == Completed
    {
      state := Completed;
    }

    /** The escaping exception is returned as Threw; the state the hook left stays in place. */
    method UpdateExecute(h: ActionHooks) returns (outcome: Outcome, ghost ran: ActionHook)
      modifies this
      ensures Execution(state, ran, outcome) == ExecuteStep(old(state), h)
    {
      if state == None {
        state := Running;
        ran := OnStartExecute;
        if h.onStartExecute { Complete(); }
        if h.throws { return Threw, ran; }
        return Returned(state == Completed), ran;
      }
      ran := OnUpdateExecution;
      if h.onUpdateExecution { Complete(); }
      if h.throws { return Threw, ran; }
      return Returned(state == Completed), ran;
    }
  }
}
