# Microscenes execution engine in Dafny

Microscenes is a Unity package. A `Microscene` component runs a graph of node groups one frame at a time. This project models the package's run-time core and proves what each part does:

- **The graph tick.** `Microscene` keeps two work lists:
  - `executingActions`: indices of action entries;
  - `executingBranches`: packs of precondition entries.

  `StartExecutingMicroscene` seeds both lists from the roots. Each `LateUpdate` does three things:
  - it re-arms entries that are `None` or `Finished`;
  - it updates the whole stack of every `Executing` entry;
  - through `AdvanceNode`, it advances an action entry when its whole stack is `Finished`, and a pack when its first such precondition group is found.

  The class keeps the two lists as `seq` fields and the nodes in an `array<Node>`. The run-time `nodeState` of every graph entry lives in an `array<NodeState>`.
- **The node state machines.**
  - `MicrosceneNode`: None, then Executing, then Finished. `OnStart` and `OnUpdate` may run in the same call.
  - `MicroAction`: None, then Running, then Completed. Start and update run on different calls. `UpdateExecute` has no catch: an exception from a hook is modelled as the outcome `Threw`, and the state the hook left stays in place.

  Each is a class whose methods update its state.
- **The stack strategies.**
  - The result helpers of `MicrosceneStackBehaviour`.
  - The per-index driver `MicrosceneStackContext.UpdateNode`.
  - The built-in stacks: `SequenceStack`, `ParallelAllStack`, `ParallelFirstStack`, `RandomStack` and `DefaultStackBehvaiour`.

  The repository mixes two stack APIs, and each file is modelled with the API it is written against.
- **Three string utilities.**
  - `NodeNamingUtility.Plural`.
  - The filter classification of `EditorIcon(string)`, with the guard of `FromTypeName`.
  - The property-path resolution of `SerializedPropertyUtility`: the `.Array.data[` rewrite, the split on `'.'`, the parse of `name[index]` elements, and the two `GetValue_Imp` walks.

**How the hooks are modelled.** The overridable hooks cannot be seen here. Each hook call therefore gets an outcome:

- it returns;
- it calls `Complete()`;
- it throws.

The model is the build with `UNITY_ASSERTIONS` on. In that build `UpdateNode` catches an exception from a hook, logs it and completes the node.

A stack strategy gets `hooks: nat -> Hooks`, indexed by node position. The graph tick gets the same kind of function, indexed by the running count of node updates in that tick.

**Other modelling choices.**

- Reflection, the asset database and the icon loaders are functions passed as parameters.
- .NET string operations are written out in `Strings`:
  - `StartsWith`, `EndsWith`, `Contains`, `IndexOf`, `Trim`, `Split` and `Replace`;
  - `Int32.Parse` for an invariant culture.

Where the package's own design description and the code disagree, the model follows the code:

- `UpdateNode` on a `Finished` node still calls `OnUpdate`; it is not skipped.
- A hook's exception completes the node. There is no separate `Crashed` state.
- There is no reference-counted join, no quit path and no graph-level state. A graph entry is advanced by its own stack, and the stack strategies do not drive the graph tick.

## Model

| member | source | states |
|---|---|---|
| MicrosceneNodes.AfterHook | Runtime/Core/MicrosceneNode.cs:13-35 | a hook that returns leaves the state as it is; one that calls Complete() or throws (caught, logged, then Complete()) leaves the node Finished |
| MicrosceneNodes.UpdateStep | Runtime/Core/MicrosceneNode.cs:10-33 | the state after one call is never None, and a Finished node stays Finished |
| MicrosceneNodes.UpdateStepHooks | Runtime/Core/MicrosceneNode.cs:10-33 | from None the call runs OnStart first, and runs OnUpdate in the same call iff OnStart did not complete the node; in any other state, Finished included, it runs only OnUpdate and the state changes only by completion; the node ends Finished iff it was Finished or a hook that ran completed it or threw |
| MicrosceneNodes.FinishedIsAbsorbing | Runtime/Core/MicrosceneNode.cs:16-35 | any series of UpdateNode calls on a Finished node leaves it Finished |
| MicrosceneNodes.RunNeverReturnsToNone | Runtime/Core/MicrosceneNode.cs:6-35 | after one or more UpdateNode calls a node is never None again: only ResetState returns it there |
| MicrosceneNodes.Node.constructor | Runtime/Core/MicrosceneNode.cs:6 | a new node is None |
| MicrosceneNodes.Node.ResetState | Runtime/Core/MicrosceneNode.cs:8 | sets the state to None |
| MicrosceneNodes.Node.Complete | Runtime/Core/MicrosceneNode.cs:35 | sets the state to Finished |
| MicrosceneNodes.Node.RunHook | Runtime/Core/MicrosceneNode.cs:13-31 | the state after one hook runs is AfterHook of the state before |
| MicrosceneNodes.Node.UpdateNode | Runtime/Core/MicrosceneNode.cs:10-33 | the new state and the hooks run, in order, are exactly UpdateStep of the old state |
| MicroActions.ExecuteStep | Runtime/Core/MicroAction.cs:28-40 | from None only OnStartExecute runs, otherwise only OnUpdateExecution; the call throws iff its hook throws, and a call that returns, returns true iff the state after it is Completed; the state never returns to None and Completed stays Completed, also when the hook throws |
| MicroActions.CompletedKeepsReturningTrue | Runtime/Core/MicroAction.cs:28-42 | a Completed action returns true from every later UpdateExecute until Reset, except on a call whose hook throws |
| MicroActions.ThrowingStartIsNotRetried | Runtime/Core/MicroAction.cs:30-37 | when OnStartExecute throws without completing, the call throws, the action is left Running, and the next call runs OnUpdateExecution instead of OnStartExecute |
| MicroActions.EmptyActionIsDoneAtOnce | Runtime/Core/MicroAction.cs:50-57 | EmptyAction returns true from its first UpdateExecute after Reset and from every call after it |
| MicroActions.MicroAction.constructor | Runtime/Core/MicroAction.cs:21 | a new action is None |
| MicroActions.MicroAction.Reset | Runtime/Core/MicroAction.cs:23-26 | sets the state to None |
| MicroActions.MicroAction.Complete | Runtime/Core/MicroAction.cs:42 | sets the state to Completed |
| MicroActions.MicroAction.UpdateExecute | Runtime/Core/MicroAction.cs:28-40 | the new state, the hook run and how the call ends (a returned value or an escaping exception) are exactly ExecuteStep of the old state |
| StackContexts.StackContext.constructor | Runtime/Core/MicrosceneStackContext.cs:18-27 | the context holds the given children and no current node |
| StackContexts.StackContext.StackLength | Runtime/Core/MicrosceneStackContext.cs:31 | StackLength is the number of children |
| StackContexts.StackContext.UpdateNode | Runtime/Core/MicrosceneStackContext.cs:34-40 | index must be in range; the method records that child as CurrentNode, gives it one UpdateStep, changes no other child, and returns its new state |
| StackBehaviours.Start | Runtime/Core/MicrosceneStackBehaviour.cs:11 | the default Start changes neither the context nor any child node |
| StackBehaviours.FinishAndSelect | Runtime/Core/MicrosceneStackBehaviour.cs:19-22 | the result is (true, index) |
| StackBehaviours.Finish | Runtime/Core/MicrosceneStackBehaviour.cs:24 | the result is (true, 0) |
| StackBehaviours.FinishIf | Runtime/Core/MicrosceneStackBehaviour.cs:25 | the result is (condition, 0) |
| StackBehaviours.FinishIfAndSelect | Runtime/Core/MicrosceneStackBehaviour.cs:26 | the result is (condition, index) |
| StackBehaviours.Continue | Runtime/Core/MicrosceneStackBehaviour.cs:28 | the result is the default value (false, 0) |
| StackBehaviours.HelpersAgree | Runtime/Core/MicrosceneStackBehaviour.cs:19-28 | every helper is a case of FinishIfAndSelect; FinishIf(true) is Finish() and FinishIf(false) is Continue() |
| DefaultStacks.Update | Runtime/Core/BuiltInStacks/DefaultStackBehvaiour.cs:5-9 | the stack needs at least one node; only node 0 is updated; the result is finished iff node 0 is Finished afterwards, with winner 0 |
| ParallelFirstStacks.FirstFinishedKeepsPrefix | Runtime/Core/BuiltInStacks/ParallelFirstStack.cs:10-20 | the positions before the one the loop starts at keep their states |
| ParallelFirstStacks.FirstFinishedWinner | Runtime/Core/BuiltInStacks/ParallelFirstStack.cs:10-17 | when the stack finishes, the winner is Finished, every earlier updated node is not, the nodes up to it got exactly one update and the later nodes none |
| ParallelFirstStacks.FirstFinishedNoWinner | Runtime/Core/BuiltInStacks/ParallelFirstStack.cs:10-20 | when no node finishes, each node got exactly one update, none is Finished, and the result is Continue() |
| ParallelFirstStacks.FirstFinishedMeaning | Runtime/Core/BuiltInStacks/ParallelFirstStack.cs:10-20 | the winner is the lowest position Finished after its update; the nodes up to it are updated once each and the nodes after it are not touched; with no winner every node was updated once, none is Finished, and the result is Continue() |
| ParallelFirstStacks.FinishedNodeBoundsWinner | Runtime/Core/BuiltInStacks/ParallelFirstStack.cs:10-17 | a node already Finished before the call makes the stack finish, with a winner at or before it |
| ParallelFirstStacks.Update | Runtime/Core/BuiltInStacks/ParallelFirstStack.cs:8-21 | the new node states and the result are exactly FirstFinished of the old states; a winner is in [0, StackLength); the nodes updated are 0 through the winner, or all of them |
| ParallelAllStacks.RunTicksIsPerNodeRun | Runtime/Core/BuiltInStacks/ParallelAllStack.cs:13-25 | over any number of calls, each node evolves on its own, as its own run of UpdateNode calls |
| ParallelAllStacks.FinishesWithTheLastNode | Runtime/Core/BuiltInStacks/ParallelAllStack.cs:13-25 | after a series of calls the stack is done iff every node's own run has reached Finished |
| ParallelAllStacks.ParallelAllStack.Reset | Runtime/Core/BuiltInStacks/ParallelAllStack.cs:8-11 | Reset changes nothing |
| ParallelAllStacks.ParallelAllStack.Update | Runtime/Core/BuiltInStacks/ParallelAllStack.cs:13-25 | every node is updated exactly once, in index order, with no early exit; the call returns true iff all nodes are Finished afterwards (so an empty stack is done at once); winnerIndex is not written |
| SequenceStacks.SequenceRunKeepsOrder | Runtime/Core/BuiltInStacks/SequenceStack.cs:13-20 | over any series of calls the cursor never decreases and never passes the stack's end; every node before it is Finished, and the nodes after it are not touched |
| SequenceStacks.DoneMeansAllFinished | Runtime/Core/BuiltInStacks/SequenceStack.cs:13-20 | when a sequence reports done, every one of its nodes is Finished |
| SequenceStacks.SequenceStack.constructor | Runtime/Core/BuiltInStacks/SequenceStack.cs:6 | the cursor starts at 0 |
| SequenceStacks.SequenceStack.Reset | Runtime/Core/BuiltInStacks/SequenceStack.cs:8-11 | sets the cursor to 0 |
| SequenceStacks.SequenceStack.Update | Runtime/Core/BuiltInStacks/SequenceStack.cs:13-20 | the cursor must be in range; only the node at the cursor is updated; the cursor moves up by one iff that node is Finished afterwards; the result is true iff the cursor has reached the stack's length; winnerIndex is not written; on distinct nodes the new cursor and node states are exactly one SequenceTick of the old ones, the step SequenceRunKeepsOrder and DoneMeansAllFinished are proved about |
| RandomStacks.RandomStack.constructor | Runtime/Core/BuiltInStacks/RandomStack.cs:6 | nodeIndex starts at 0 |
| RandomStacks.RandomStack.Reset | Runtime/Core/BuiltInStacks/RandomStack.cs:8-11 | picks any nodeIndex in [0, stack.Length), or 0 for an empty stack, as Random.Range does |
| RandomStacks.RandomStack.Update | Runtime/Core/BuiltInStacks/RandomStack.cs:13-17 | only the chosen node is updated; the result is true iff it is Finished afterwards; nodeIndex is unchanged; winnerIndex is not written |
| MicrosceneGraph.NewNodeTypeAttribute | Runtime/Core/Microscene.cs:38-44 | the attribute fails with ArgumentException iff the node type is 0, and otherwise records the type |
| MicrosceneGraph.HybridIsPreconditionAndAction | Runtime/Core/Microscene.cs:16-21 | Hybrid is 3 and carries both the Precondition and the Action flag |
| MicrosceneGraph.ByteIndex | Runtime/Core/Microscene.cs:195-197 | the byte loop variable of an action stack holds the index modulo 256: in [0, 256), equal to the index when the index is in range |
| MicrosceneGraph.StackIndices | Runtime/Core/Microscene.cs:195-209 | an action entry's stack goes through the byte conversion, element for element; a precondition entry's stack is used as it is |
| MicrosceneGraph.ResetFromMeaning | Runtime/Core/Microscene.cs:152-156 | resetting a stack sets exactly the nodes it names to None and leaves every other node as it was |
| MicrosceneGraph.UpdateFromLeavesOthers | Runtime/Core/Microscene.cs:163-169 | updating a stack does not touch a node the stack does not name |
| MicrosceneGraph.UpdateFromUpdatesEach | Runtime/Core/Microscene.cs:163-169 | updating a stack gives each of its nodes exactly one UpdateStep, with the hooks of its turn |
| MicrosceneGraph.UpdateFromTaken | Runtime/Core/Microscene.cs:162-171 | the `taken` flag is true iff every node of the stack is Finished after its own update; the and-accumulation does not short-circuit the updates |
| MicrosceneGraph.UpdatePrefixThenRest | Runtime/Core/Microscene.cs:163-169 | running the first k updates of a stack in order, then the rest from position k, is the same as running the whole stack |
| MicrosceneGraph.VisitGroupRearms | Runtime/Core/Microscene.cs:150-159 | an entry found None or Finished is only re-armed: its stack is reset, it becomes Executing, no node is updated and it is not taken |
| MicrosceneGraph.VisitGroupUpdates | Runtime/Core/Microscene.cs:160-176 | an Executing entry updates every node of its stack once, leaves other nodes and the entry's state alone, and is taken iff all its nodes are then Finished |
| MicrosceneGraph.VisitPackLeavesGroup | Runtime/Core/Microscene.cs:145-177 | an entry that is none of the groups visited, up to and including the winner, keeps its state |
| MicrosceneGraph.VisitPackMeaning | Runtime/Core/Microscene.cs:145-177 | a pack has no winner when it is empty; a winner is a position in the pack; no entry outside the groups visited up to the winner changes state |
| MicrosceneGraph.VisitGroupLeavesNode | Runtime/Core/Microscene.cs:160-176 | whether re-armed or updated, a visit of an entry changes no node outside the entry's own stack |
| MicrosceneGraph.VisitPackWinner | Runtime/Core/Microscene.cs:145-177 | the winner is the first group of the pack that is taken when its turn comes: each earlier group was visited and not taken, the winner was taken, and the visit's result is the state right after the winner's own visit; with no winner every group was visited in order and none was taken |
| MicrosceneGraph.VisitPackLeavesNode | Runtime/Core/Microscene.cs:145-177 | a node outside the stacks of the groups visited, up to and including the winner, keeps its state |
| MicrosceneGraph.RemoveAt | Runtime/Core/Microscene.cs:226 | List.RemoveAt: the list without its element at j, the others in order |
| MicrosceneGraph.NewPacks | Runtime/Core/Microscene.cs:231-232 | non-empty branch connections become one new pack; empty ones add nothing |
| MicrosceneGraph.Advance | Runtime/Core/Microscene.cs:223-233 | AdvanceNode removes the element at j from its list, appends the action connections to the actions and the branch connections as one pack, and changes nothing else |
| MicrosceneGraph.AdvanceKeepsEntries | Runtime/Core/Microscene.cs:223-233 | in a well-formed graph, advancing keeps every listed action an action entry and every pack a pack of precondition entries |
| MicrosceneGraph.AdvanceRemovesExactlyOne | Runtime/Core/Microscene.cs:226-232 | as multisets, the new lists plus the removed element are the old lists plus the successors added |
| MicrosceneGraph.AdvanceKeepsEmptyPack | Runtime/Core/Microscene.cs:145-177 | an empty pack in the list is still there after an advance of an action or of a non-empty pack; an empty pack cannot win, so it is never the pack removed |
| Microscenes.Microscene.constructor | Runtime/Core/Microscene.cs:52-63 | the component holds the given roots, graph and nodes, with both work lists empty and every entry None |
| Microscenes.Microscene.IsExecutingAnyNode | Runtime/Core/Microscene.cs:79-82 | true iff either work list is non-empty |
| Microscenes.Microscene.StartExecutingMicroscene | Runtime/Core/Microscene.cs:102-131 | afterwards the actions are the root actions in order and the packs are exactly one, the root branches; entry states are reset to None iff something was executing, otherwise they are left as they were |
| Microscenes.Microscene.ResetNodeAt | Runtime/Core/Microscene.cs:154-155 | `ResetState` on `m_Nodes[c]` (also at lines 197-198): the sequence of node states is the old one with only index `c` set to None |
| Microscenes.Microscene.UpdateNodeAt | Runtime/Core/Microscene.cs:165-166 | one node update of `m_Nodes[c]` (also at lines 209-210): the sequence of node states is the old one with only index `c` replaced by UpdateStep of its old state |
| Microscenes.Microscene.ResetStack | Runtime/Core/Microscene.cs:195-199 | the node states become ResetFrom of the old ones over the entry's stack indices |
| Microscenes.Microscene.UpdateStack | Runtime/Core/Microscene.cs:205-213 | the node states and the taken flag are UpdateFrom of the old states over the entry's stack indices |
| Microscenes.Microscene.VisitEntry | Runtime/Core/Microscene.cs:186-215 | the entry states, node states, update count and taken flag are exactly VisitGroup of the old ones |
| Microscenes.Microscene.AdvanceNode | Runtime/Core/Microscene.cs:223-233 | the entry becomes Finished, the lists become Advance of the old lists, and j is decremented so the next element is not skipped |
| Microscenes.Microscene.ActionStep | Runtime/Core/Microscene.cs:181-220 | one iteration of the action loop: the entry is visited as VisitGroup says; if it is taken it is Finished, the lists are advanced and the index stays; otherwise the lists are unchanged and the index moves on |
| Microscenes.Microscene.BranchStep | Runtime/Core/Microscene.cs:137-178 | one iteration of the pack loop: the pack is visited as VisitPackFrom says; the first winning group is Finished and advances the pack out of the list; with no winner the lists are unchanged |
| Microscenes.Microscene.LateUpdate | Runtime/Core/Microscene.cs:133-221 | the tick keeps the component's invariants; an empty pack, such as an empty set of root branches, is never removed, so the component keeps reporting IsExecutingAnyNode |
| NodeNaming.Plural | Runtime/Utility/NodeNaming.cs:21-33 | null stays null; the text is kept as it is iff it is blank or the count is one; otherwise the text is a prefix of the result, which ends in "s" and grows by "es" after a final "s" and by "s" otherwise |
| NodeNaming.PluralExamples | Runtime/Utility/NodeNaming.cs:14-33 | "meter" becomes "meters" and "bus" becomes "buses"; a count of one or blank text is kept |
| EditorIcons.Classify | Editor/Utility/EditorIcon.cs:24-63 | for each source, the exact condition under which the filter selects it: blank means no icon; an Assets/ or Packages/ prefix takes precedence and loads the whole filter; a Resources/ prefix is stripped; "t:" gives the trimmed remainder, which is empty for no icon, a full name when it contains '.', and a short name otherwise; anything else is a built-in icon name |
| EditorIcons.FromTypeName | Editor/Utility/EditorIcon.cs:87-90 | fails with ArgumentException iff the name contains '.'; otherwise returns the short-name search |
| EditorIcons.IconFromFilter | Editor/Utility/EditorIcon.cs:24-63 | the constructor never hits FromTypeName's exception; no icon for a blank filter; a short name goes to the type search |
| EditorIcons.ClassifyAssetPathExample | Editor/Utility/EditorIcon.cs:30-34 | "Assets/Icons/a.png" is loaded whole as an asset path |
| EditorIcons.ClassifyResourcesPathExample | Editor/Utility/EditorIcon.cs:36-40 | "Resources/Icons/a" is loaded as the Resources path "Icons/a" |
| EditorIcons.ClassifyTypeName | Editor/Utility/EditorIcon.cs:43-53 | for every unpadded name, "t:" followed by the name selects the full-name lookup when the name contains '.' and the short-name search otherwise |
| EditorIcons.ClassifyPaddedTypeName | Editor/Utility/EditorIcon.cs:43-53 | one blank on each side of the name after "t:" is trimmed away before the same choice |
| EditorIcons.ClassifyBlankTypeExample | Editor/Utility/EditorIcon.cs:43-48 | "t:" followed by blanks gives no icon |
| EditorIcons.ClassifyBuiltinExample | Editor/Utility/EditorIcon.cs:58-60 | "d_PlayButton", which has none of the prefixes, is a built-in icon name |
| Strings.ContainsChar | Editor/Utility/SerializedPropertyUtility.cs:61 | a one-character string is contained iff the character occurs |
| Strings.IndexOf | Editor/Utility/SerializedPropertyUtility.cs:63 | -1 iff the character is absent; otherwise the position of its first occurrence |
| Strings.TrimStart | Editor/Utility/EditorIcon.cs:45 | removes exactly the leading white space: the result is a suffix, everything removed is white space, and the result starts with a non-space character |
| Strings.TrimEnd | Editor/Utility/EditorIcon.cs:45 | removes exactly the trailing white space |
| Strings.Trim | Editor/Utility/EditorIcon.cs:45 | the result neither starts nor ends with white space |
| Strings.TrimEmptyIffWhiteSpace | Editor/Utility/EditorIcon.cs:45-48 | the trimmed remainder is empty iff it was null-or-white-space |
| Strings.TrimIdempotent | Editor/Utility/EditorIcon.cs:45 | trimming twice is trimming once |
| Strings.TrimUnpadded | Editor/Utility/EditorIcon.cs:45 | a string that neither starts nor ends with white space is left as it is |
| Strings.TrimSurrounded | Editor/Utility/EditorIcon.cs:45 | one white-space character on each side of an unpadded string is removed, and nothing else |
| Strings.Split | Editor/Utility/SerializedPropertyUtility.cs:58 | at least one part, none containing the separator |
| Strings.JoinSplit | Editor/Utility/SerializedPropertyUtility.cs:58 | joining the parts with the separator gives back the string |
| Strings.SplitJoin | Editor/Utility/SerializedPropertyUtility.cs:58 | splitting a join of separator-free parts gives back the parts |
| Strings.ReplaceAbsent | Editor/Utility/SerializedPropertyUtility.cs:50 | a string without the pattern is unchanged by Replace |
| Strings.ReplaceSkipsUnmarked | Editor/Utility/SerializedPropertyUtility.cs:50 | text that cannot end a match passes through Replace unchanged |
| Strings.ReplaceOccurrence | Editor/Utility/SerializedPropertyUtility.cs:50 | an occurrence of the pattern is replaced and the scan goes on after it |
| Strings.RemoveCharMeaning | Editor/Utility/SerializedPropertyUtility.cs:64 | replacing a character by "" removes every occurrence and keeps every other character |
| Strings.ParseInt32 | Editor/Utility/SerializedPropertyUtility.cs:64 | a parsed value is within the Int32 range |
| Strings.ParseInt32RoundTrip | Editor/Utility/SerializedPropertyUtility.cs:64 | every Int32, written in decimal, parses back to itself |
| Strings.ParseInt32NeedsDigits | Editor/Utility/SerializedPropertyUtility.cs:64 | a text without digits fails with FormatException |
| PropertyPaths.ParseSegment | Editor/Utility/SerializedPropertyUtility.cs:61-70 | an element without '[' is a member name as it is; otherwise, on success, the name is the text before the first '[' |
| PropertyPaths.ParseSegmentIndex | Editor/Utility/SerializedPropertyUtility.cs:61-64 | for an element with '[', the index is the Int32 parse of everything from the first '[' on with every bracket removed, and the element fails exactly when that text does not parse |
| PropertyPaths.StripBrackets | Editor/Utility/SerializedPropertyUtility.cs:64 | removing '[' and then ']' from "[d]" gives d |
| PropertyPaths.BracketAfterName | Editor/Utility/SerializedPropertyUtility.cs:63 | in name[...] the first '[' is the one after the name |
| PropertyPaths.ParseSegmentRoundTrip | Editor/Utility/SerializedPropertyUtility.cs:61-65 | every member name and every name[index] element parses back to that segment |
| PropertyPaths.RewriteSegment | Editor/Utility/SerializedPropertyUtility.cs:50 | the rewrite turns one segment in Unity's form into the compact form, whatever follows it |
| PropertyPaths.RewriteUnityPath | Editor/Utility/SerializedPropertyUtility.cs:50 | the rewrite of a whole Unity path is exactly its compact form: every `.Array.data[` becomes `[` and nothing else changes |
| PropertyPaths.SplitCompactPath | Editor/Utility/SerializedPropertyUtility.cs:58 | splitting a compact path on '.' gives its elements |
| PropertyPaths.ReadUnityPath | Editor/Utility/SerializedPropertyUtility.cs:50-65 | the path Unity writes for a chain of members and list elements is read back, after the rewrite, split and parse, as exactly that chain |
| SerializedProperties.MemberOf | Editor/Utility/SerializedPropertyUtility.cs:86-96 | at one type, a field is preferred to a property, and a field is reported iff one was found |
| SerializedProperties.NamedFromFirstMember | Editor/Utility/SerializedPropertyUtility.cs:84-98 | the lookup stops at the first type in the base-type chain that has the member |
| SerializedProperties.NamedFromNoMember | Editor/Utility/SerializedPropertyUtility.cs:84-100 | with no type in the chain having the member, the lookup gives null and no field |
| SerializedProperties.NamedFromField | Editor/Utility/SerializedPropertyUtility.cs:86-95 | a field is reported only when the value was read from it, and it is a field of some type in the chain |
| SerializedProperties.GetValueNamed | Editor/Utility/SerializedPropertyUtility.cs:77-101 | the loop over the type and its base types computes NamedLookup |
| SerializedProperties.IndexedLookup | Editor/Utility/SerializedPropertyUtility.cs:102-116 | the field reported is the named lookup's; the lookup fails iff the index is negative and the member is an enumerable |
| SerializedProperties.GetValueIndexed | Editor/Utility/SerializedPropertyUtility.cs:102-116 | the MoveNext loop computes IndexedLookup: element index of the enumeration, or null when the member is not enumerable or too short |
| SerializedProperties.GetObjectFromPath | Editor/Utility/SerializedPropertyUtility.cs:54-75 | the loop over the split path computes ResolveFrom: each element is parsed and looked up on the previous result |
| SerializedProperties.GetObjectFromProperty | Editor/Utility/SerializedPropertyUtility.cs:45-52 | a null property gives null and no field; otherwise the rewritten path is resolved from the target object |
| SerializedProperties.ResolveParsed | Editor/Utility/SerializedPropertyUtility.cs:57-71 | resolving elements that parse to a chain of segments is walking that chain |
| SerializedProperties.PropertyWalksUnityPath | Editor/Utility/SerializedPropertyUtility.cs:45-71 | resolving the property path Unity writes for a chain of members and list elements walks exactly that chain |

## Left out

- Host life cycle of `Microscene`: `Start`, the `context` component lookup, `enabled`, `OnValidate`, the gizmos and the `*_Editor` accessors. They are Unity plumbing with no state of the engine.
- The custom context data and the `MicrosceneContext` passed to hooks. They are opaque to the engine and are only handed to the hooks.
- Logging, and the `Assert.AreEqual` node-type checks. The well-formedness predicate requires those types instead.
- The build without `UNITY_ASSERTIONS`. There, a hook's exception escapes `UpdateNode` instead of completing the node.
- `NodeNamingUtility.Value` and `ColorUtils`. Both are floating-point formatting.
- `GetVisibleChildren`, `EditorIcon(Type)`, `GetIcon`, `IndentTexture`, and the assembly searches of `FromTypeFullName` and `FromTypeName`. They need the Unity editor, the asset database or reflection, and they appear only as loader functions.
- Microscenes.Microscene.LateUpdate: each of its two loops stops after `fuel` iterations. A graph that feeds an entry back to the list twice, with hooks that complete at once, makes the loop run without end. The contract states the invariants and the empty-pack property; the per-iteration effects are stated by ActionStep and BranchStep.
- Microscenes.Microscene.constructor: it requires the graph to be well formed and the nodes of `m_Nodes` to be distinct objects. A node shared by two slots is not modelled.
- Microscenes.Microscene.constructor: the source leaves `executingActions` and `executingBranches` null until the first StartExecutingMicroscene, so IsExecutingAnyNode (and LateUpdate) would throw NullReferenceException before the first start; the model starts with both lists empty, where IsExecutingAnyNode is false.
- Microscenes.Microscene: each entry's `nodeState` is kept in an array beside the immutable graph, instead of inside the `MicrosceneNodeData` struct.
- ParallelFirstStacks.Update: it requires the children to be distinct objects. A node object appearing twice in one stack is not modelled.
- ParallelAllStacks.ParallelAllStack.Update: it requires the children to be distinct objects, as above.
- MicrosceneNodes.Node.UpdateNode: the hooks it runs are reported as a ghost sequence. The hooks' own effects, beyond completing the node, are not modelled.
- RandomStacks.RandomStack.Reset: `Random.Range` is modelled as any index in range. Its distribution is not modelled.
- Strings.StartsWith: it compares ordinally, character by character. The source's `StartsWith`, `EndsWith` and `IndexOf(string)` are culture-sensitive. They agree with ordinal comparison only on text that contains no characters the culture ignores or combines. For example, a soft hyphen (U+00AD) at the end of a word is ignored by the source's `EndsWith("s")`, so the source pluralises "bus" + U+00AD with "es" where the model adds "s".
- PropertyPaths.ParseSegment: `IndexOf("[")` is modelled as a search for the character '['.
- Strings.ParseInt32: parsing is modelled for the invariant culture. It takes an optional sign, decimal digits, and the white space `Int32.Parse` allows. Culture-specific sign symbols and trailing NUL characters are not modelled.
- SerializedProperties.GetObjectFromPath: the final `(T)obj` cast is not modelled; the result is the untyped object.
- SerializedProperties.IndexedLookup: an enumerable member is modelled as a finite sequence. A negative index reads `Current` before the first `MoveNext`, which throws; it is modelled as the error `EnumerationNotStarted`.
- SerializedProperties.MemberOf: the case-insensitive property lookup is left to the reflection functions.
- MicroActions.ExecuteStep: a hook that calls the public `Reset` is not modelled; a hook's effect on the state is limited to calling `Complete()`, so the state a hook leaves is never None. An exception from a hook is modelled as the outcome `Threw`, not as control leaving the caller.
- EditorIcons.IconFromFilter: the `(Texture)` cast of `Resources.Load` is not modelled, and neither is the empty `try`/`finally`.
