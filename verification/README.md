# sprotty: update reconciliation, graph factory, layout utilities, dispatch, undo/redo

A Dafny model of five pieces of sprotty, a diagramming framework whose client
renders a model tree that a server sends as plain schemas.

- **Model update** (`update_model.dfy`, `model_matching.dfy`, `animation.dfy`,
  `smodel.dfy`). The update-model command replaces the current root. The new
  root is either materialized from a schema or obtained by applying a list of
  match records (a diff) to the current root. The command keeps the old and
  the new root for undo and redo. It derives an animation from the id
  matching of the two trees:
  - a fade-in for each element only the new tree has;
  - a fade-out for each element only the old tree has;
  - a move for each element whose position changed;
  - wrapped as nothing, a fade, a move, or a compound whose first part is the
    fade.

  The implementation of the command, the matcher and `computeAnimation` is not
  part of this model. Their behaviour is taken from what
  `update-model.spec.ts` asserts. `animation_scenarios.dfy` and
  `command_scenarios.dfy` work out each of those tests on its concrete trees.
  The test's recursive `compare` helper is the predicate `SModel.Matches`.
- **Graph factory** (`sgraph_factory.dfy`). Picks the class of a new element
  from its schema's basic type. A live object of the class asked for (a child
  element for `createElement`, a root for `createRoot`) is handed back as the
  same object, and only a child's parent is reassigned.
- **Layout utilities** (`layout_util.dfy`). Builds an id-to-node map by
  walking the model through node children. Applies a resize action in place
  to the nodes of that map.
- **Action dispatcher** (`action_dispatcher.dfy`, `actions.dfy`). Routes
  actions to the command stack, to a registered handler, or to a warning.
  The command stack and the logger are observed as a trace of calls.
- **Undo/redo keys** (`undo_redo.dfy`). Maps Ctrl/Cmd+Z to undo and
  Ctrl/Cmd+Shift+Z to redo.

## Model

| member | source | states |
|---|---|---|
| SModel.BuildMatches | client/src/features/update/update-model.spec.ts:24-36 | an element materialized from a schema passes `compare` against that schema, at every depth |
| SModel.MatchesIgnoresExtraChildren | client/src/features/update/update-model.spec.ts:28-31 | `compare` walks only the expected children, so children appended to the element do not make it fail |
| ModelMatching.Register | client/src/features/update/update-model.spec.ts:93-94 | registering an element sets its side of the record to the element and its parent id, keeps the other side (empty for a new id), adds its id to the keys and leaves every other record alone |
| ModelMatching.RegisterValid | client/src/features/update/update-model.spec.ts:93-94 | registering keeps the match result well formed: ids listed once, listed ids equal to the keys, every record non-empty and about its key |
| ModelMatching.MatchSideValid | client/src/features/update/update-model.spec.ts:93-94 | registering a whole tree side keeps the match result well formed |
| ModelMatching.MatchTrees | client/src/features/update/update-model.spec.ts:93-94 | matching two trees yields a well-formed match result |
| ModelMatching.MatchSideHalf | client/src/features/update/update-model.spec.ts:93-94 | after one side is registered, an id's record holds on that side the last element with that id (or what it held), and its other side is untouched |
| ModelMatching.MatchTreesKeys | client/src/features/update/update-model.spec.ts:93-94 | the matcher's keys are exactly the ids of the old tree together with those of the new tree |
| ModelMatching.MatchTreesLeft | client/src/features/update/update-model.spec.ts:93-94 | a record's left side is the old tree's element with that id, under its parent id, or empty when the old tree lacks the id |
| ModelMatching.MatchTreesRight | client/src/features/update/update-model.spec.ts:93-94 | a record's right side is the new tree's element with that id, under its parent id, or empty when the new tree lacks the id |
| ModelMatching.MatchTreesSides | client/src/features/update/update-model.spec.ts:93-94 | a record has a left element iff the old tree has the id, and a right element iff the new tree has it |
| ModelMatching.MatchSelf | client/src/features/update/update-model.spec.ts:93-94 | matching a tree with itself pairs each element with itself under the same parent |
| UpdateAnimation.Fades | client/src/features/update/update-model.spec.ts:118-125 | there are no fades iff no record is left-only or right-only |
| UpdateAnimation.Moves | client/src/features/update/update-model.spec.ts:189-194 | the move map is empty iff no record is moved |
| UpdateAnimation.ComputeAnimation | client/src/features/update/update-model.spec.ts:231-249 | no animation iff nothing is added, removed or moved; a plain fade only without moves; a plain move only without fades; a compound has exactly two parts, a non-empty fade first and a non-empty move second; the fades carried are those of FadesMembership and the moves those of MovesMembership |
| UpdateAnimation.FadesMembership | client/src/features/update/update-model.spec.ts:118-125 | a fade is in the list iff some record contributes exactly that fade |
| UpdateAnimation.FadesDistinct | client/src/features/update/update-model.spec.ts:120-124 | records about distinct ids give fades of distinct elements |
| UpdateAnimation.MovesKeys | client/src/features/update/update-model.spec.ts:189-194 | for any records, an id has a move iff a record about it is moved |
| UpdateAnimation.MovesMembership | client/src/features/update/update-model.spec.ts:189-194 | an id has a move iff a record about it is moved, and with distinct ids that move is the record's old and new position |
| UpdateAnimation.RecordsDistinct | client/src/features/update/update-model.spec.ts:93-95 | the records of a well-formed match result are each about the id they are listed under, so no two are about the same id |
| UpdateAnimation.RecordOf | client/src/features/update/update-model.spec.ts:93-95 | every id of either tree is listed, and its record holds each tree's element with that id, or nothing |
| UpdateAnimation.UnchangedTreeIsSilent | client/src/features/update/update-model.spec.ts:117-125 | updating a tree to itself produces no animation |
| UpdateAnimation.AddedRecordOfTrees | client/src/features/update/update-model.spec.ts:117-125 | a right-only record is of an id only the new tree has, and holds that tree's element |
| UpdateAnimation.RemovedRecordOfTrees | client/src/features/update/update-model.spec.ts:151-159 | a left-only record is of an id only the old tree has, and holds that tree's element |
| UpdateAnimation.FadeInOfTrees | client/src/features/update/update-model.spec.ts:117-125 | every `'in'` fade is of an element only the new tree has, and carries the new tree's element |
| UpdateAnimation.FadeOutOfTrees | client/src/features/update/update-model.spec.ts:151-159 | every `'out'` fade is of an element only the old tree has, and carries the old tree's element |
| UpdateAnimation.FadesCoverTrees | client/src/features/update/update-model.spec.ts:99-160 | every added id gets an `'in'` fade and every removed id an `'out'` fade |
| UpdateAnimation.FadesOfTreesDistinct | client/src/features/update/update-model.spec.ts:119-125 | no element is faded twice, so there is exactly one fade per added or removed element |
| UpdateAnimation.MovedOnlyIfShared | client/src/features/update/update-model.spec.ts:188-194 | only an element that both trees have can move |
| UpdateAnimation.MovesOfSharedIds | client/src/features/update/update-model.spec.ts:188-194 | a shared element moves iff it has a position in both trees and the positions differ; the move is keyed by its id and carries both positions verbatim |
| AnimationScenarios.FadeInMatch | client/src/features/update/update-model.spec.ts:99-117 | matching the empty graph with the two-node graph gives the root paired and two right-only nodes, in that order |
| AnimationScenarios.FadeInScenario | client/src/features/update/update-model.spec.ts:99-126 | the animation is a fade of exactly child1 and child2, both `'in'`, both nodes |
| AnimationScenarios.FadeOutMatch | client/src/features/update/update-model.spec.ts:128-151 | matching the two-node graph with the empty graph gives the root paired and two left-only nodes |
| AnimationScenarios.FadeOutScenario | client/src/features/update/update-model.spec.ts:128-160 | the animation is a fade of exactly child1 and child2, both `'out'`, both nodes |
| AnimationScenarios.MoveMatch | client/src/features/update/update-model.spec.ts:162-188 | matching the two one-node graphs pairs the roots and pairs child1 at (100,100) with child1 at (150,200) |
| AnimationScenarios.MoveScenario | client/src/features/update/update-model.spec.ts:162-195 | the animation is a plain move, not a compound, holding exactly child1 from (100,100) to (150,200) |
| AnimationScenarios.MixedMatch | client/src/features/update/update-model.spec.ts:197-231 | the matching has the root and child1 paired, child2 left-only and child3 right-only |
| AnimationScenarios.MixedScenario | client/src/features/update/update-model.spec.ts:197-250 | the animation is a two-part compound: a fade with child2 `'out'` and child3 `'in'`, then the move of child1 from (100,100) to (150,200) |
| UpdateModel.RemoveId | client/src/features/update/update-model.spec.ts:279-285 | removal keeps the root's id, type and position and leaves no element carrying the removed id below it; what stays is stated by RemoveOnlyChild and RemoveAbsent |
| UpdateModel.RemoveOnlyChild | client/src/features/update/update-model.spec.ts:279-285 | when one child alone carries the id, removal cuts exactly that child and keeps the other children, in order |
| UpdateModel.AddTo | client/src/features/update/update-model.spec.ts:272-278 | adding under the root's id appends the element as its last child; nothing else about the root changes |
| UpdateModel.ApplyMatch | client/src/features/update/update-model.spec.ts:271-300 | applying a match record never changes the root's id, type or position; RemovalCutsChild, AdditionAppends and MoveUnderRoot give each kind of record's effect on the children |
| UpdateModel.ApplyMatches | client/src/features/update/update-model.spec.ts:268-302 | the loop over the match records yields the records applied one after another in list order |
| UpdateModel.ApplyAllConcat | client/src/features/update/update-model.spec.ts:271-300 | applying two diffs in turn equals applying their concatenation |
| UpdateModel.RemoveAbsent | client/src/features/update/update-model.spec.ts:279-285 | removing an id that no descendant carries changes nothing |
| UpdateModel.AddAbsent | client/src/features/update/update-model.spec.ts:272-278 | adding under an id the tree does not carry changes nothing |
| UpdateModel.AddToRoot | client/src/features/update/update-model.spec.ts:272-278 | when only the root carries the parent id, the element becomes the root's last child and the other children are kept |
| UpdateModel.RemovalRemoves | client/src/features/update/update-model.spec.ts:279-285 | after a removal record, no element below the root carries the removed id |
| UpdateModel.AdditionAppends | client/src/features/update/update-model.spec.ts:272-278 | an addition record under the root appends the materialized element to the root's children |
| UpdateModel.RemovalCutsChild | client/src/features/update/update-model.spec.ts:279-285 | a removal record for a child of the root cuts that child and keeps the other children in order |
| UpdateModel.MoveUnderRoot | client/src/features/update/update-model.spec.ts:286-299 | a two-sided record for a child of the root, with the root as new parent, takes the child out of its place, keeps the others in order and appends the new element last |
| UpdateModel.NewModel | client/src/features/update/update-model.spec.ts:64-76 | with a new root schema the result passes `compare` against it; with a diff the root keeps its id and type; with neither the context root is kept |
| UpdateModel.AnimationFor | client/src/features/update/update-model.spec.ts:64-76 | with animation off, and for an unchanged root, there is no animation |
| UpdateModel.UpdateModelCommand.Execute | client/src/features/update/update-model.spec.ts:70-76 | execute records the context root as the old root and the returned root as the new root, and returns the new model with its animation |
| UpdateModel.UpdateModelCommand.Undo | client/src/features/update/update-model.spec.ts:78-81 | undo returns the stored old root, whatever the current root is |
| UpdateModel.UpdateModelCommand.Redo | client/src/features/update/update-model.spec.ts:83-87 | redo returns the stored new root, whatever the current root is |
| CommandScenarios.ReplaceWithoutAnimation | client/src/features/update/update-model.spec.ts:64-87 | execute with animation off returns a root that passes `compare` against model2 with no animation; undo then returns model1 and redo the executed root |
| CommandScenarios.DiffScenario | client/src/features/update/update-model.spec.ts:252-320 | applying add child3, remove child2, move child1 to [child1, child2] leaves exactly two children, child3 then child1 at (150,200), which passes `compare` against the expected graph |
| CommandScenarios.ApplyDiffWithoutAnimation | client/src/features/update/update-model.spec.ts:268-319 | the command with that diff and animation off returns that root and no animation |
| SGraphFactory.ChildKindOf | client/src/graph/model/sgraph-factory.ts:19-28 | `'node'`, `'edge'`, `'label'` and `'comp'` select node, edge, label and compartment, each iff that predicate holds; any other basic type selects the generic child |
| SGraphFactory.RootKindOf | client/src/graph/model/sgraph-factory.ts:34-37 | a root is a graph iff its basic type is `'graph'`, and is the generic root otherwise |
| SGraphFactory.IsChildKind | client/src/graph/model/sgraph-factory.ts:15 | a live object is a child element exactly when it is not a graph or generic root |
| SGraphFactory.IsGraphSchema | client/src/graph/model/sgraph-factory.ts:40-42 | holds exactly when the basic type is `'graph'` |
| SGraphFactory.IsNodeSchema | client/src/graph/model/sgraph-factory.ts:44-46 | holds exactly when the basic type is `'node'` |
| SGraphFactory.IsEdgeSchema | client/src/graph/model/sgraph-factory.ts:48-50 | holds exactly when the basic type is `'edge'` |
| SGraphFactory.IsLabelSchema | client/src/graph/model/sgraph-factory.ts:52-54 | holds exactly when the basic type is `'label'` |
| SGraphFactory.IsCompartmentSchema | client/src/graph/model/sgraph-factory.ts:56-58 | holds exactly when the basic type is `'comp'` |
| SGraphFactory.CreateElement | client/src/graph/model/sgraph-factory.ts:14-29 | a live child element comes back as the same object, its parent set only when one is given and otherwise left unchanged; anything else, a live root included, yields a fresh element of the selected class with the input's id and type under the given parent |
| SGraphFactory.CreateRoot | client/src/graph/model/sgraph-factory.ts:31-38 | a live root comes back as the same object; anything else, a live child included, yields a fresh graph or generic root with the input's id and type |
| SGraphFactory.AtMostOneSchemaPredicate | client/src/graph/model/sgraph-factory.ts:40-58 | at most one of the schema predicates holds for a schema |
| SGraphFactory.KindDependsOnBasicTypeOnly | client/src/graph/model/sgraph-factory.ts:40-58 | two schemas with the same basic type are classified alike |
| SGraphFactory.UnrecognisedBasicTypes | client/src/graph/model/sgraph-factory.ts:25-28 | `'compartment'`, `'graph'` and the empty basic type fall back to the generic child |
| LayoutUtil.AddNodes | server/diagram-layout-engine/src/main/java/io/typefox/sprotty/layout/LayoutUtil.java:25-35 | the map after the walk is the node-children walk of the element started from the map before |
| LayoutUtil.CreateId2NodeMap | server/diagram-layout-engine/src/main/java/io/typefox/sprotty/layout/LayoutUtil.java:19-23 | a fresh map holding the walk of the graph from the empty map |
| LayoutUtil.CollectKeys | server/diagram-layout-engine/src/main/java/io/typefox/sprotty/layout/LayoutUtil.java:25-35 | the keys after the walk are the keys before it plus exactly the non-null ids of the nodes reachable through node children |
| LayoutUtil.CollectValues | server/diagram-layout-engine/src/main/java/io/typefox/sprotty/layout/LayoutUtil.java:25-35 | every value after the walk is the value that key held before, or a node reached through node children; the element the walk starts from is not visited as a child |
| LayoutUtil.CollectKeysMatch | server/diagram-layout-engine/src/main/java/io/typefox/sprotty/layout/LayoutUtil.java:29-30 | if every key of the starting map names a node with that id, the walk keeps it so |
| LayoutUtil.Id2NodeMapFacts | server/diagram-layout-engine/src/main/java/io/typefox/sprotty/layout/LayoutUtil.java:19-35 | the id map's keys are the reachable non-null ids, its values reachable nodes, and each key maps to a node with that id |
| LayoutUtil.NullIdNodeStillWalked | server/diagram-layout-engine/src/main/java/io/typefox/sprotty/layout/LayoutUtil.java:29-31 | on a two-level example, a node with a null id is not put, but a node below it is (CollectKeys with ReachableIds gives the general fact) |
| LayoutUtil.NodeBelowOtherSkipped | server/diagram-layout-engine/src/main/java/io/typefox/sprotty/layout/LayoutUtil.java:28-32 | on a two-level example, a node below a child that is not a node is not collected (CollectKeys with ReachableIds gives the general fact) |
| LayoutUtil.ApplyResizeAction | server/diagram-layout-engine/src/main/java/io/typefox/sprotty/layout/LayoutUtil.java:37-49 | only reachable nodes change; each node's width and height are what the resizes, applied in list order through the id map, leave on that axis |
| LayoutUtil.LaterResizeWins | server/diagram-layout-engine/src/main/java/io/typefox/sprotty/layout/LayoutUtil.java:39-48 | the last resize that reaches a node with a value on an axis decides that axis |
| LayoutUtil.UntouchedSizeKept | server/diagram-layout-engine/src/main/java/io/typefox/sprotty/layout/LayoutUtil.java:40-47 | a size no resize reaches keeps its value: unnamed nodes, unknown ids, and a null value on that axis whatever the other axis carries |
| LayoutUtil.UnknownIdIgnored | server/diagram-layout-engine/src/main/java/io/typefox/sprotty/layout/LayoutUtil.java:40-41 | a resize whose id is null or not in the map reaches no node |
| ActionDispatcher.ExecuteCalls | client/src/base/intent/action-dispatcher.ts:43-45 | the stack's execute is called once, with the whole command list, iff there are commands |
| ActionDispatcher.DispatchCalls | client/src/base/intent/action-dispatcher.ts:28-37 | `'undo'` gives exactly one stack undo, `'redo'` exactly one stack redo, an unregistered kind exactly one warning, a registered kind starts with the handle log entry |
| ActionDispatcher.HandleCalls | client/src/base/intent/action-dispatcher.ts:39-49 | handling an action starts with its log entry |
| ActionDispatcher.Dispatcher.DispatchAll | client/src/base/intent/action-dispatcher.ts:24-26 | the trace grows by the calls of the actions dispatched in list order |
| ActionDispatcher.Dispatcher.Dispatch | client/src/base/intent/action-dispatcher.ts:28-37 | the trace grows by exactly the routing's calls |
| ActionDispatcher.Dispatcher.HandleAction | client/src/base/intent/action-dispatcher.ts:39-49 | the trace grows by the log entry, the execute batch and the follow-up dispatches |
| ActionDispatcher.DispatchAllConcat | client/src/base/intent/action-dispatcher.ts:24-26 | dispatching two lists in turn equals dispatching their concatenation |
| ActionDispatcher.UndoRedoSequence | client/src/base/intent/action-dispatcher.ts:24-32 | a list of undo and redo actions gives one stack call per action, in order, and nothing else |
| ActionDispatcher.UndoRedoIgnoreRegistry | client/src/base/intent/action-dispatcher.ts:29-34 | undo and redo are routed the same whatever the registry holds, so a handler registered for them is never used |
| ActionDispatcher.UnregisteredOnlyWarns | client/src/base/intent/action-dispatcher.ts:35-36 | an unregistered kind makes no call on the command stack |
| ActionDispatcher.LegacyKindsFallThrough | client/src/base/intent/action-dispatcher.ts:29-36 | the kinds `'Undo'` and `'Redo'` go to their handler if registered and otherwise only warn |
| ActionDispatcher.ExecuteBeforeFollowUps | client/src/base/intent/action-dispatcher.ts:43-48 | after the log entry comes the execute batch, if there are commands, and only then the calls of the follow-up actions |
| ActionDispatcher.CommandHandlerExecutesOnce | client/src/base/intent/action-dispatcher.ts:39-45 | an action whose handler answers in the dispatcher's shape with its single command gives a log entry and one execute of that command |
| ActionDispatcher.CommandHandlerAsWrittenOnlyLogs | client/src/base/intent/action-dispatcher.ts:39-45 | an action whose handler is the command action handler as written, returning a bare list, gives only the log entry and no call on the command stack |
| Actions.CommandActionHandle | client/src/base/intent/commands.ts:32-34 | the handler's result in the dispatcher's shape: exactly one command, of the handler's type and for the action, and no follow-up actions |
| Actions.CommandActionHandleAsWritten | client/src/base/intent/commands.ts:32-34 | the handler as written: a bare list of exactly one command, of the handler's type and for the action |
| Actions.ReadResult | client/src/base/intent/action-dispatcher.ts:43-47 | the dispatcher finds neither commands nor actions in a bare list, and reads an object in its shape as it is |
| ActionDispatcher.KeyPressDispatch | client/src/base/intent/action-dispatcher.ts:28-32 | the key listener's result, once dispatched, reaches the stack as one redo, one undo, or nothing |
| UndoRedo.KeyPress | client/src/features/undo-redo/undo-redo.ts:24-32 | Ctrl/Cmd+Z+Shift gives exactly `[redo]`, Ctrl/Cmd+Z without Shift exactly `[undo]`, and anything else `[]`; never more than one action |
| UndoRedo.KeyPressIgnoresElement | client/src/features/undo-redo/undo-redo.ts:24-32 | the result does not depend on the element |
| UndoRedo.KindsDifferFromLegacy | client/src/features/undo-redo/undo-redo.ts:13-21 | the kinds `'undo'` and `'redo'` are distinct, and differ from the capitalised kinds of the older constants |

## Left out

- The implementation files of `UpdateModelCommand`, `ModelMatcher` and `computeAnimation` are not part of this model. Their behaviour is modelled from what the update tests assert. Four things are the model's own reading rather than code:
  - the matcher's iteration order: the old tree in pre-order, then the new-only ids;
  - diff application: remove the left element by id anywhere in the tree, then append the right element to the element named by its parent id;
  - UpdateModel.NewModel: an action that carries both a new root and a diff builds the new root from the schema and ignores the diff, since no test gives both;
  - UpdateModel.AnimationFor: the animation of a diff comes from matching the whole old tree against the whole new tree, not from the diff's own records, since the only diff test runs without animation.
- Animation playback (frame ticks, duration, opacity and position interpolation) is not modelled. Neither are the re-insertion of faded-out elements into the new root for the duration of the fade, nor any fadeable or root check the hidden `computeAnimation` may apply. Only which fades and moves are produced is modelled.
- `animate` left undefined is not modelled: it is a boolean here. The animations of undo and redo are not modelled either, so Undo and Redo return roots only.
- UpdateModel.UpdateModelCommand.Execute does not model aliasing. With a diff, the live implementation builds the new root from the context root object itself, so old and new can be one object. Here roots are values.
- Duplicate ids within one tree are not excluded. The matcher keeps the last element with an id, removal cuts every element with the id, and addition appends under every element with the parent id.
- `getBasicType`, `initializeChild` and `initializeRoot` are not part of this model. The basic type is a function passed in. SGraphFactory.CreateElement and SGraphFactory.CreateRoot copy only the id and type, and do not materialize children.
- SGraphFactory.SchemaOf shows a live object to the classification by its id and type only, so a basic type that depends on other properties of a live object is not modelled.
- UpdateModel.ApplyMatch drops the right element of a record that has no `rightParentId`, or whose parent id no element carries. This is the model's reading; the implementation is not part of this model.
- SModel.Point has integer coordinates, while the source's positions are JavaScript numbers. Fractional positions, NaN and -0 are not modelled, and position equality is integer equality.
- UpdateAnimation.Moved: an element without a position in the old or the new tree never counts as moved.
- `isCtrlOrCmd` is a boolean field of the key event.
- LayoutUtil.ApplyResizeAction does not model a null `newSize`, which throws in Java. Widths and heights are opaque optional values.
- ActionDispatcher.DispatchCalls bounds the nesting of follow-up dispatches by a fuel argument. At fuel 0 a handler's follow-up actions are not dispatched, so unbounded handler chains are not modelled.
- Handler side effects other than their result, and the logger's message text, are not modelled.
- `IActionHandler.handle` is declared to return a command list, while the dispatcher reads `commands` and `actions` from its result. Both are modelled; see Findings.
- The registry's `get` for a registered kind is taken to return that kind's handler. The instance registry itself is not part of this model.

## Findings

| source | as written | input that shows it | evidently intended | confidence | as-written member | corrected member |
|---|---|---|---|---|---|---|
| client/src/base/intent/commands.ts:32-34 | `CommandActionHandler.handle` returns a bare command list, but the dispatcher reads `result.commands` and `result.actions` (client/src/base/intent/action-dispatcher.ts:43-47), both undefined on a list | an action whose kind is registered to a command action handler: the trace is only the log entry, and its command is never executed | the handler answers in the dispatcher's shape, with its one command under `commands`, which the dispatcher executes as one batch | medium, not executed | ActionDispatcher.CommandHandlerAsWrittenOnlyLogs | ActionDispatcher.CommandHandlerExecutesOnce |
