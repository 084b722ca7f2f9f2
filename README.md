# Scene commands of rusty-editor, in Dafny

This project models the scene-editing core of rusty-editor (`src/scene.rs`): the
undo/redo command runtime through which the editor changes a scene. Every edit is a
command with `execute`, `revert` and `finalize`. A `CommandGroup` executes its
commands front to back, reverts them back to front, and finalizes each one once while
draining the list. The commands work on rg3d's generational pools: a handle is a slot
index plus a generation. `take_reserve` takes a value out and hands back a ticket,
`put_back` returns the value to the same slot with the same generation, and
`forget_ticket` frees the slot for good. This is what makes undo and redo give back the
handles of the first execution.

The model covers:

- the pool operations the editor relies on (`Pools`);
- the scene graph, physics world, navigation meshes and their entities (`SceneGraph`, `PhysicsWorld`, `Entities`, `Scenes`);
- each command, stated as a pure step from a scene and a command state to a new scene and command state (`PoolCommands`, `GraphCommands`, `NodeCommands`, `PhysicsCommands`, `NavmeshCommands`, `SelectionCommands`, `PasteCommands`);
- the `SceneCommand` sum and its dispatch (`Commands`);
- the group folds (`CommandGroups`);
- the mutable `SceneContext` and `CommandGroup` objects, whose loops are proved equal to those folds (`Runtime`);
- selections (`Selections`);
- `deep_clone_nodes` and the `Clipboard` (`DeepClones`);
- `make_delete_selection_command` (`DeleteSelection`, `DeleteSelectionCommands`);
- the validation and navmesh conversion inside `EditorScene::save` (`Saving`).

Pools, graphs, bodies and navigation meshes are values that the commands read and
rebuild. The `SceneContext` class holds them as fields, and `CommandGroup` updates its
command list in place. A Rust panic (`unwrap` of `None`, a failed `assert_eq!`,
indexing a pool with a dead handle, `unreachable!`) is the result `None`.
`SceneContext`'s methods report it as `false`. The message channel of
`ChangeSelectionCommand` is modelled as a count of `SelectionChanged` messages sent.

The quirks of the code are modelled as written:

- `DeleteEmitterCommand::revert` puts an emitter that was at index 0 back at the end of the list.
- `DeleteColliderCommand::revert` puts the collider back at the end of its body's collider list.
- `DeleteBodyCommand::revert` binds a body that had no node to `NONE`.
- `DeleteNodeCommand` and `DeleteSubGraphCommand` relink the node as the last child of its parent.
- `make_delete_selection_command` removes only the first occurrence of the graph root from the selection.

Two places where the code does not do what it evidently means are listed under
Findings. The corrected `ChangeSelectionCommand` is the one the dispatcher uses.

## Model

| member | source | states |
|---|---|---|
| Pools.Spawn | src/scene.rs:1033-1038 | `spawn` yields a handle that was not live and now holds the value: a vacant slot at a higher generation, or a new slot at generation 1; every other live value and every reservation is kept |
| Pools.TakeReserve | src/scene.rs:1046-1052 | `take_reserve` returns the ticket of the handle's slot and its value; only that handle stops being live, the slot keeps its generation and becomes reserved |
| Pools.PutBack | src/scene.rs:1039-1042 | `put_back` makes the ticket's slot live again at the generation it had, holding the value; nothing else changes and the ticket is no longer reserved |
| Pools.ForgetTicket | src/scene.rs:1054-1060 | `forget_ticket` frees the reserved slot; live handles and values are untouched and no other reservation changes |
| Pools.TryBorrow | src/scene.rs:803 | `try_borrow_mut` yields a value exactly when the handle is live, and then the handle's value |
| Pools.Set | src/scene.rs:2962-2972 | writing through a live handle changes that value only: same live handles and reservations, every other value kept |
| Pools.SetSame | src/scene.rs:2962-2972 | writing back the value a handle holds leaves the pool unchanged |
| Pools.SetTwice | src/scene.rs:2962-2972 | the second of two writes to one handle wins |
| Pools.LiveHandlesExact | src/scene.rs:193 | iterating a pool visits exactly its live handles, in increasing slot order |
| Pools.NoneNeverLive | src/scene.rs:195-206 | `NONE` is never a live handle |
| Pools.TakeReservePutBack | src/scene.rs:1040-1050 | putting back what `take_reserve` took restores the pool exactly, at the same handle |
| Pools.PutBackTakeReserve | src/scene.rs:1040-1050 | reserving again what `put_back` put back gives back the pool, the ticket and the value |
| Pools.SpawnReserveForget | src/scene.rs:1033-1060 | spawn, take_reserve and forget_ticket keep the old live values, and the spawned handle never resolves again, even after a new spawn |
| Pools.TakeAll | src/scene.rs:1181-1185 | reserving a list of distinct live handles returns, in order, their tickets and values, and leaves live exactly the other handles with their values |
| Pools.PutAll | src/scene.rs:1197-1200 | putting back a list of tickets makes each ticket's handle live with its value, keeps every live value, and brings nothing else to life |
| Pools.ForgetAll | src/scene.rs:1213-1216 | forgetting a list of tickets frees exactly those reservations and leaves every live value as it was |
| Pools.TakeAllPutAllExact | src/scene.rs:1181-1200 | putting back everything a `TakeAll` reserved restores the pool exactly and gives back the same handles |
| Entities.RawCopy | src/scene.rs:74 | a node's copy keeps its data and loses its parent and children |
| Entities.IndexOf | src/scene.rs:3294 | `position` yields the first index holding the value, or the length when the value is absent |
| Entities.InsertRemoved | src/scene.rs:2356-2364 | inserting at `i` the element removed from `i` restores the list |
| Entities.RemoveInserted | src/scene.rs:2403-2410 | removing the element inserted at `i` restores the list |
| Entities.RemoveFirst | src/scene.rs:3465-3467 | removing the first occurrence takes one copy of the element out of the multiset, and changes nothing when the element is absent |
| Entities.RemoveFirstAppended | src/scene.rs:2268-2277 | removing the first occurrence of an element that was appended to a list without it gives the list back |
| SceneGraph.NewGraph | src/scene.rs:164-168 | a new graph holds only its live root, which has no children |
| SceneGraph.Unlink | src/scene.rs:1816-1820 | detaching a node clears its parent and removes it from its old parent's children; no other node and no reservation changes |
| SceneGraph.LinkNodes | src/scene.rs:1816-1820 | `link_nodes` makes the child the last child of the new parent and sets its parent; only the child, the new parent and the old parent change |
| SceneGraph.LinkNodesLeavesOldParent | src/scene.rs:1816-1820 | linking takes the child's first occurrence out of its old parent's children |
| SceneGraph.AddNode | src/scene.rs:598-602 | `add_node` spawns a new live node whose parent is the root, holding the node's data; the live nodes are the old ones plus the new one, and every other node keeps its parent and its data |
| SceneGraph.TakeReserveNode | src/scene.rs:1865-1870 | reserving a node detaches it from its parent, takes it out of the pool with its data, and leaves every other node as it was |
| SceneGraph.PutBackNode | src/scene.rs:1872-1878 | putting a node back makes its handle live again as a child of the root, with the node's data |
| SceneGraph.ForgetNode | src/scene.rs:1880-1884 | forgetting a node's ticket frees only that reservation |
| SceneGraph.Traverse | src/scene.rs:88 | `traverse_handle_iter` starts at the root it is given and visits only live nodes |
| SceneGraph.TraverseClosed | src/scene.rs:88 | the traversal contains every child of every node it contains |
| SceneGraph.TraverseFromMoreFuel | src/scene.rs:3489-3515 | a stack walk that completes yields the same nodes when it is allowed more steps |
| SceneGraph.TraverseFromStacked | src/scene.rs:3489-3515 | a stack walk over handles pushed above others yields everything the upper handles lead to, then everything the lower ones lead to |
| SceneGraph.RootsTraversals | src/scene.rs:3489-3515 | the per-root traversals, last root first, exist exactly when each root's traversal completes |
| SceneGraph.TraverseRoots | src/scene.rs:3489-3515 | a stack of roots, walked with the pool's size in steps for each, yields each root's traversal, last root first; a root listed twice is walked twice |
| SceneGraph.TakeReserveSubGraph | src/scene.rs:2138-2146 | `take_reserve_sub_graph` reserves exactly the traversed nodes, records the root's ticket and the descendants' tickets and nodes in traversal order, and every other node stays live |
| SceneGraph.PutSubGraphBack | src/scene.rs:2148-2157 | `put_sub_graph_back` makes the root live again under the graph root, with every descendant live again, and keeps every live node |
| SceneGraph.ForgetSubGraph | src/scene.rs:2159-2163 | `forget_sub_graph` frees exactly the sub-graph's reservations and changes no live node |
| SceneGraph.SubGraphRoundTrip | src/scene.rs:2138-2157 | putting back a reserved sub-graph revives exactly the traversed nodes at their handles, keeps every other live node, and brings the root back under the graph root |
| PhysicsWorld.BinderInsert | src/scene.rs:111-112 | `insert` binds the node to the body both ways and keeps every other node's binding |
| PhysicsWorld.RemoveByKey | src/scene.rs:1949 | `remove_by_key` unbinds the node, drops its body from the backward map, and keeps every other node's binding |
| PhysicsWorld.RemoveByValue | src/scene.rs:2192-2201 | `remove_by_value` unbinds the body and reports its node exactly when it was bound, and changes nothing otherwise |
| PhysicsWorld.RemoveByValueInsert | src/scene.rs:2203-2214 | in a one-to-one binder, binding the removed node to the body again restores the binder |
| PhysicsWorld.RemoveByKeyInsert | src/scene.rs:1937-1950 | in a one-to-one binder, binding the node to its old body again restores the binder |
| PhysicsWorld.FindJoint | src/scene.rs:3501 | `find_joint` yields a live joint whose first body is the given body, or `NONE` when no live joint has it |
| Scenes.NodeAt | src/scene.rs:2962-2972 | indexing the graph yields the node exactly when the handle is live |
| Scenes.WithNodeRestore | src/scene.rs:2962-2972 | writing a node and then its old value restores the scene |
| Selections.Equals | src/scene.rs:3250-3272 | `GraphSelection::eq` is false when the first list is empty and the second is not, and otherwise true exactly when every node of the first is in the second |
| Selections.EqEmpty | src/scene.rs:3250-3272 | against an empty list, the equality holds exactly when the other list is empty too, in either argument order |
| Selections.EqIgnoresOrder | src/scene.rs:3250-3272 | two lists that are permutations of each other are equal both ways |
| Selections.EqNotSymmetric | src/scene.rs:3250-3272 | `[x]` equals `[x, y]` while `[x, y]` does not equal `[x]` |
| Selections.SelectionEqKinds | src/scene.rs:3223-3227 | equal selections are of the same kind, and identical selections are equal |
| Selections.FromList | src/scene.rs:3275-3279 | `from_list` drops every `NONE` and keeps every other handle with its multiplicity, in order |
| Selections.FromListMembers | src/scene.rs:3275-3279 | a handle is in the result of `from_list` exactly when it was in the list and is not `NONE` |
| Selections.SingleOrEmptyIsFromList | src/scene.rs:3282-3290 | `single_or_empty(h)` is `from_list([h])`, a single selection when `h` is not `NONE` |
| Selections.SizeTests | src/scene.rs:3309-3319 | a selection is empty exactly when it contains no node, a single selection contains its first node and no other, and a multi-selection is one that is neither |
| Selections.BuiltSizes | src/scene.rs:3282-3323 | `single_or_empty(h)` is empty exactly for `NONE` and single otherwise; an extended selection is empty only when both parts are, and a multi-selection when neither is |
| Selections.Extend | src/scene.rs:3321-3323 | `extend` appends the other list: the result holds the nodes of both, the first list's nodes first |
| Selections.InsertOrExclude | src/scene.rs:3293-3299 | `insert_or_exclude` removes the first occurrence of a selected handle and appends an unselected one |
| Selections.ToggleFlipsMembership | src/scene.rs:3293-3299 | on a list without duplicates, toggling flips the handle's membership, keeps every other handle's, keeps the list free of duplicates, and toggling an unselected handle twice restores the list |
| Selections.RootsAmongExact | src/scene.rs:3341-3354 | `root_nodes` keeps exactly the selected nodes that descend from no selected node, at most as often as they are selected |
| Selections.RootNodes | src/scene.rs:3325-3355 | the loop of `root_nodes` yields the root nodes of the selection, in selection order |
| Selections.AllLive | src/scene.rs:3327-3345 | the check holds exactly when every listed node is live; on a well-linked graph `root_nodes` indexes every selected node and panics on a dead one |
| Selections.AnyChildReachesAt | src/scene.rs:3327-3339 | `is_descendant_of` holds when some child is the handle or has it as a descendant |
| SelectionCommands.SelectionSetEqProperties | src/scene.rs:3250-3272 | comparing node lists as sets is reflexive and symmetric, and is the subset test holding both ways |
| SelectionCommands.ChangeSelectionSwapAsWritten | src/scene.rs:1353-1387 | as written, `execute` and `revert` swap the command's selections, and set the scene's selection and count one message exactly when the new selection is not equal to the current one by the one-way test |
| SelectionCommands.ChangeSelectionUndoAsWritten | src/scene.rs:1353-1387 | as written, undo restores the selection exactly when the change did nothing or the old selection is not a subset of the new one |
| SelectionCommands.UndoGrowingSelectionFails | src/scene.rs:1378-1387 | as written, undo of a change from `[x]` to `[x, y]` leaves `[x, y]` selected |
| SelectionCommands.ChangeSelectionSwap | src/scene.rs:1353-1387 | corrected `execute`/`revert`: the same exchange, compared as sets |
| SelectionCommands.ChangeSelectionUndo | src/scene.rs:1367-1387 | corrected: undo of a change restores the selection and the command, with zero or two messages in all, and redo repeats the change |
| CommandGroups.ForwardAppend | src/scene.rs:532-536 | executing a concatenation executes the first part, then the second from the state it left |
| CommandGroups.BackwardAppend | src/scene.rs:538-543 | reverting a concatenation reverts the second part first, then the first |
| CommandGroups.BackwardIsReversedForward | src/scene.rs:538-543 | reverting a list is executing its reversal with the revert step, with the results reversed back |
| CommandGroups.DrainAppend | src/scene.rs:545-549 | finalizing a concatenation finalizes the first part, then the second |
| CommandGroups.GroupUndoRedo | src/scene.rs:532-543 | when every command's revert undoes its execute, a group's revert undoes the group's execute, giving back the state and the commands |
| CommandGroups.ForwardRunsInOrder | src/scene.rs:532-536 | group execution runs the commands in list order, each exactly once |
| CommandGroups.BackwardRunsInReverse | src/scene.rs:538-543 | group revert runs the commands in reverse list order, each exactly once |
| CommandGroups.DrainRunsInOrder | src/scene.rs:545-549 | group finalize runs every command exactly once, in list order |
| Commands.Execute | src/scene.rs:552-561 | dispatch of `execute` keeps a group's length, and selection changes never panic |
| Commands.Revert | src/scene.rs:552-565 | dispatch of `revert` keeps a group's length, and selection changes never panic |
| Commands.Finalize | src/scene.rs:552-569 | dispatch of `finalize` leaves a group empty |
| Commands.GroupExecute | src/scene.rs:532-536 | a group command executes as the front-to-back fold of `execute` over its commands |
| Commands.GroupRevert | src/scene.rs:538-543 | a group command reverts as the back-to-front fold of `revert` over its commands |
| Commands.GroupFinalize | src/scene.rs:545-549 | a group command finalizes as the draining fold of `finalize` and is left empty |
| Runtime.CommandGroup.IsEmpty | src/scene.rs:515-517 | a group is empty exactly when it holds no command |
| Runtime.CommandGroup.Push | src/scene.rs:511-513 | `push` appends the command |
| Runtime.CommandGroup.Execute | src/scene.rs:532-536 | the loop replaces each command, front to back, by its executed self and leaves the context as the fold does; it fails exactly when the fold panics |
| Runtime.CommandGroup.Revert | src/scene.rs:538-543 | the loop replaces each command, back to front, by its reverted self and leaves the context as the fold does; it fails exactly when the fold panics |
| Runtime.CommandGroup.Finalize | src/scene.rs:545-549 | the loop drains the list, finalizing each command once, and leaves the context as the fold does |
| Runtime.SceneContext.Update | src/scene.rs:388-393 | the context holds the scene a command left |
| PoolCommands.AddExecute | src/scene.rs:1033-1044 | an add command's first execute spawns the value at a new handle and keeps every other value; a later one puts it back at the recorded handle; without a value it panics |
| PoolCommands.AddRevert | src/scene.rs:1046-1052 | revert succeeds exactly when the recorded handle is live, and reserves it, keeping the ticket and the value |
| PoolCommands.AddFinalize | src/scene.rs:1054-1060 | finalize forgets the ticket only when one is held, and does nothing otherwise |
| PoolCommands.AddRevertExecute | src/scene.rs:1033-1052 | after a first execute, revert then execute restores the pool and the command exactly, at the first handle, and so does the next revert |
| PoolCommands.AddExecuteTwicePanics | src/scene.rs:1033-1044 | executing twice without a revert in between panics |
| PoolCommands.AddUndoneFinalized | src/scene.rs:1033-1060 | finalizing an undone add keeps exactly the values the pool had before, and the handed-out handle never resolves again |
| PoolCommands.DeleteExecute | src/scene.rs:1307-1315 | a delete command's execute succeeds exactly when the handle is live, and reserves it |
| PoolCommands.DeleteRevert | src/scene.rs:1317-1323 | revert puts the value back exactly when the ticket is still reserved |
| PoolCommands.DeleteFinalize | src/scene.rs:1325-1329 | finalize forgets the ticket only when one is held |
| PoolCommands.DeleteExecuteRevert | src/scene.rs:1307-1323 | undo of a delete restores the pool and the command exactly |
| PoolCommands.DeleteRedo | src/scene.rs:1307-1323 | redo after undo of a delete repeats its first execution exactly |
| PoolCommands.DeleteFinalized | src/scene.rs:1307-1329 | finalizing an executed delete frees the slot for good and keeps every other value |
| GraphCommands.AddNodeExecute | src/scene.rs:598-611 | `AddNodeCommand::execute` adds the node under the root at a new handle the first time, and puts it back at the recorded handle later |
| GraphCommands.AddNodeRevert | src/scene.rs:613-617 | revert reserves the added node and keeps its ticket and data |
| GraphCommands.ForgetHeldNode | src/scene.rs:619-623 | forgetting a held node ticket succeeds exactly when the ticket still reserves its slot, does nothing without a ticket, and keeps every live node and value |
| GraphCommands.ForgetHeldSubGraph | src/scene.rs:2159-2163 | forgetting a held sub-graph does nothing without one, and otherwise keeps every live node and value |
| GraphCommands.AddNodeFinalize | src/scene.rs:619-623 | finalize forgets the ticket only when one is held |
| GraphCommands.AddNodeRedo | src/scene.rs:598-617 | undo then redo of an add puts the node back at the first handle with the same data apart from its children list, with the same live nodes, and every other node keeps its parent and its data |
| GraphCommands.DeleteNodeExecute | src/scene.rs:1865-1870 | `DeleteNodeCommand::execute` records the parent and reserves the node |
| GraphCommands.DeleteNodeRevert | src/scene.rs:1872-1878 | revert puts the node back and links it to the recorded parent |
| GraphCommands.DeleteNodeFinalize | src/scene.rs:1880-1884 | finalize forgets the ticket only when one is held |
| GraphCommands.DeleteNodeUndo | src/scene.rs:1865-1878 | undo of a delete restores the node at its handle with its parent, children and data, and every other node; the node becomes its parent's last child |
| GraphCommands.ReserveNodeRoundTrip | src/scene.rs:1865-1878 | reserving a node, putting it back and linking it to its parent restores it, last among the parent's children |
| GraphCommands.DeleteSubGraphExecute | src/scene.rs:2138-2146 | `DeleteSubGraphCommand::execute` records the parent and reserves the sub-graph |
| GraphCommands.DeleteSubGraphRevert | src/scene.rs:2148-2157 | revert puts the sub-graph back and links its root to the recorded parent |
| GraphCommands.DeleteSubGraphFinalize | src/scene.rs:2159-2163 | finalize forgets the sub-graph only when one is held |
| GraphCommands.DeleteSubGraphUndo | src/scene.rs:2138-2157 | undo of a sub-graph deletion revives every node of the sub-graph at its handle, keeps every live node, and restores the root's parent |
| GraphCommands.LoadModelExecute | src/scene.rs:2082-2093 | a later `LoadModelCommand::execute` puts the model's sub-graph back |
| GraphCommands.LoadModelRevert | src/scene.rs:2095-2102 | revert reserves the model's sub-graph |
| GraphCommands.LoadModelFinalize | src/scene.rs:2104-2111 | finalize forgets the sub-graph only when one is held |
| GraphCommands.LoadModelRedo | src/scene.rs:2082-2102 | undo then redo of a loaded model revives every node of its sub-graph, keeps every live node, and leaves the command as it was |
| GraphCommands.LinkNodesSwap | src/scene.rs:1816-1836 | `LinkNodesCommand` panics exactly on a dead child, a dead old parent or a dead new parent; it stores the child's old parent, makes the child the last child of the new parent, takes it out of the old parent's children, and leaves every other node as it was |
| GraphCommands.LinkNodesUndo | src/scene.rs:1816-1836 | undo of a re-parenting succeeds exactly when the old parent is live, and then restores the command, the child's parent and every node's data |
| NodeCommands.TransformSwap | src/scene.rs:1636-1803 | move, scale and rotate store the new value in the node's transform and keep the previous value in the command; a move or a rotation also writes the value to the body bound to the node, and nothing else in the physics world changes; it panics exactly on a dead node or a dead bound body |
| NodeCommands.TransformUndo | src/scene.rs:1651-1690 | undo of a transform restores the command and puts the old value back in the node, and restores the whole scene when the node and its body held that old value |
| NodeCommands.NodePropertySwap | src/scene.rs:2786-2821 | a node setter command exchanges its value with the node's property, and panics when the node is dead or lacks the property |
| NodeCommands.NodePropertyUndo | src/scene.rs:2962-2972 | a node setter swap is its own inverse: two swaps restore the scene and the command |
| NodeCommands.SetLodGroupSwap | src/scene.rs:3010-3012 | `SetLodGroupCommand` exchanges its level-of-detail group with the node's |
| NodeCommands.SetLodGroupUndo | src/scene.rs:3010-3012 | two swaps of a level-of-detail group restore the scene and the command |
| NodeCommands.WithLevelsSame | src/scene.rs:2305-2319 | writing a node's levels back unchanged leaves the scene unchanged |
| NodeCommands.AddLodLevelExecute | src/scene.rs:2305-2311 | adding a level appends it to the node's levels, and panics without a level-of-detail group |
| NodeCommands.AddLodLevelRevert | src/scene.rs:2313-2319 | revert pops the last level |
| NodeCommands.AddLodLevelUndo | src/scene.rs:2305-2319 | undo of adding a level restores the scene |
| NodeCommands.RemoveLodLevelExecute | src/scene.rs:2346-2354 | removing a level takes the level at the index out and keeps it |
| NodeCommands.RemoveLodLevelRevert | src/scene.rs:2356-2364 | revert inserts the kept level back at the index |
| NodeCommands.RemoveLodLevelUndo | src/scene.rs:2346-2364 | undo of removing a level restores the scene and the command |
| NodeCommands.AddLodObjectExecute | src/scene.rs:2393-2401 | adding an object appends it to the level's objects and records its index |
| NodeCommands.AddLodObjectRevert | src/scene.rs:2403-2410 | revert removes the object at the recorded index |
| NodeCommands.AddLodObjectUndo | src/scene.rs:2393-2410 | undo of adding an object restores the scene |
| NodeCommands.RemoveLodObjectExecute | src/scene.rs:2439-2446 | removing an object takes the object at the index out of the level and keeps it |
| NodeCommands.RemoveLodObjectRevert | src/scene.rs:2448-2459 | revert inserts the object back at its index |
| NodeCommands.RemoveLodObjectUndo | src/scene.rs:2439-2459 | undo of removing an object restores the scene |
| NodeCommands.LodRangeSwap | src/scene.rs:2463-2553 | the range commands exchange their value with the level's begin or end |
| NodeCommands.LodRangeUndo | src/scene.rs:2463-2553 | two range swaps restore the scene and the command |
| NodeCommands.AddEmitterExecute | src/scene.rs:648-653 | adding an emitter appends it to the particle system's emitters |
| NodeCommands.AddEmitterRevert | src/scene.rs:655-663 | revert pops the last emitter and keeps it |
| NodeCommands.AddEmitterUndo | src/scene.rs:648-663 | undo of adding an emitter restores the scene and the command |
| NodeCommands.DeleteEmitterExecute | src/scene.rs:939-946 | deleting an emitter takes the one at the index out and keeps it |
| NodeCommands.DeleteEmitterRevert | src/scene.rs:948-958 | revert inserts the emitter at its index, or appends it when the index is 0 |
| NodeCommands.DeleteEmitterUndo | src/scene.rs:939-958 | undo of a deletion restores the command; at a non-zero index it restores the scene, while at index 0 the deleted first emitter goes back at the end |
| NodeCommands.DeleteFirstEmitterReorders | src/scene.rs:948-958 | undo of deleting the first of two different emitters does not give back the original list |
| NodeCommands.EmitterPropertySwap | src/scene.rs:2912-2960 | an emitter setter exchanges its value with the emitter's property, and panics for a dead node, a bad index or another emitter shape |
| NodeCommands.EmitterPropertyUndo | src/scene.rs:2912-2960 | two emitter property swaps restore the scene and the command |
| PhysicsCommands.SetBodyExecute | src/scene.rs:1913-1935 | `SetBodyCommand::execute` spawns the body the first time, or puts it back at its handle later, and binds the node to it |
| PhysicsCommands.SetBodyRevert | src/scene.rs:1937-1950 | revert reserves the body and unbinds the node |
| PhysicsCommands.SetBodyFinalize | src/scene.rs:1952-1961 | finalize forgets the ticket and unbinds the node only when a ticket is held |
| PhysicsCommands.SetBodyUndo | src/scene.rs:1913-1950 | undo of setting a body keeps the old bodies and unbinds only the node; redo repeats the first execution exactly |
| PhysicsCommands.SetColliderExecute | src/scene.rs:1990-2011 | `SetColliderCommand::execute` spawns or puts back the collider and appends it to its body's colliders |
| PhysicsCommands.SetColliderRevert | src/scene.rs:2013-2030 | revert reserves the collider and removes it from its body's list |
| PhysicsCommands.SetColliderFinalize | src/scene.rs:2032-2036 | finalize forgets the ticket only when one is held |
| PhysicsCommands.SetColliderUndo | src/scene.rs:1990-2030 | undo of setting a collider restores the bodies and keeps the old colliders; redo repeats the first execution exactly |
| PhysicsCommands.DeleteBodyExecute | src/scene.rs:2192-2201 | deleting a body reserves it and unbinds it, recording its node |
| PhysicsCommands.DeleteBodyRevert | src/scene.rs:2203-2214 | revert puts the body back and binds the recorded node to it |
| PhysicsCommands.DeleteBodyFinalize | src/scene.rs:2216-2220 | finalize forgets the ticket only when one is held |
| PhysicsCommands.DeleteBodyUndo | src/scene.rs:2192-2214 | undo restores the body pool; a bound body's whole scene is restored, and an unbound body ends up bound to `NONE` |
| PhysicsCommands.DeleteColliderExecute | src/scene.rs:2249-2266 | deleting a collider reserves it and removes it from its body's list |
| PhysicsCommands.DeleteColliderRevert | src/scene.rs:2268-2277 | revert puts the collider back and appends it to its body's list |
| PhysicsCommands.DeleteColliderFinalize | src/scene.rs:2279-2283 | finalize forgets the ticket only when one is held |
| PhysicsCommands.DeleteColliderUndo | src/scene.rs:2249-2277 | undo restores the scene, except that the collider comes back at the end of its body's list, which keeps the same elements |
| PhysicsCommands.PhysicsPropertySwap | src/scene.rs:2823-2910 | body, collider and joint setters exchange their value with the entity's property, and panic on a dead handle or another shape |
| PhysicsCommands.PhysicsPropertyUndo | src/scene.rs:2836-2854 | two physics property swaps restore the physics world and the command |
| NavmeshCommands.EdgeTriangles | src/scene.rs:721-730 | the new edge's triangles are (opposite begin, begin, opposite end) and (begin, end, opposite end) |
| NavmeshCommands.AddNavmeshEdgeExecute | src/scene.rs:715-769 | execute needs a live mesh, changes only that mesh and, when asked, the selection, and records the selection it replaced |
| NavmeshCommands.AddNavmeshEdgeRevert | src/scene.rs:771-795 | revert needs an executed command on a live mesh, changes only that mesh, and restores the replaced selection when asked |
| NavmeshCommands.AddNavmeshEdgeFinalize | src/scene.rs:797-814 | finalize changes no live vertex or triangle, and does nothing unless the command was reverted on a live mesh |
| NavmeshCommands.AddNavmeshEdgeCreates | src/scene.rs:715-741 | a first add-edge creates exactly two new vertices holding the edge and the two triangles joining it to the opposite edge |
| NavmeshCommands.AddNavmeshEdgeRedo | src/scene.rs:747-795 | redo after any successful undo of an add-edge gives back exactly the scene and the command from before the undo |
| NavmeshCommands.AddNavmeshEdgeUndo | src/scene.rs:715-795 | undo of a fresh add-edge restores the mesh's vertices and triangles and the selection; redo repeats the first execution exactly |
| NavmeshCommands.ConnectingTriangles | src/scene.rs:858-867 | the connecting triangles are (e0 begin, e0 end, e1 begin) and (e1 begin, e1 end, e0 begin) |
| NavmeshCommands.ConnectNavmeshEdgesExecute | src/scene.rs:853-884 | execute needs a live mesh and changes only that mesh's triangles |
| NavmeshCommands.ConnectNavmeshEdgesRevert | src/scene.rs:886-900 | revert is possible only after execute, and takes out exactly the two triangles while keeping every other one |
| NavmeshCommands.ConnectNavmeshEdgesFinalize | src/scene.rs:902-912 | finalize panics on a dead mesh, changes no live vertex or triangle, and does nothing unless the command was reverted |
| NavmeshCommands.ConnectNavmeshEdgesUndo | src/scene.rs:853-900 | a fresh connect adds exactly the two connecting triangles at new handles; undo restores the mesh's triangles, and redo repeats the first execution exactly |
| NavmeshCommands.TrianglesUsing | src/scene.rs:1170-1178 | the collected triangles are exactly the live triangles that have the vertex as a corner |
| NavmeshCommands.DeleteNavmeshVertexExecute | src/scene.rs:1166-1190 | execute takes out the vertex and exactly the live triangles that use it, keeping every other vertex and triangle; a dead vertex panics |
| NavmeshCommands.DeleteNavmeshVertexRevert | src/scene.rs:1192-1206 | revert puts the vertex back with its position and records its handle |
| NavmeshCommands.DeleteNavmeshVertexFinalize | src/scene.rs:1208-1219 | finalize changes no live vertex or triangle, and does nothing unless the command was executed on a live mesh |
| NavmeshCommands.DeleteNavmeshVertexUndo | src/scene.rs:1166-1206 | undo of deleting a vertex restores the scene exactly, and redo repeats the first execution |
| NavmeshCommands.MoveNavmeshVertexSwap | src/scene.rs:1606-1632 | moving a vertex stores the new position and exchanges the command's two positions |
| NavmeshCommands.MoveNavmeshVertexUndo | src/scene.rs:1606-1632 | undo of a move restores the command and the old position, and the whole scene when the vertex was at the old position |
| DeepClones.SpawnCopies | src/scene.rs:73-79 | every copied node gets a fresh handle in the destination holding its raw copy, and the old-to-new map covers exactly the copied nodes |
| DeepClones.LinkCopies | src/scene.rs:74 | linking gives the copy of every listed node its final links: the copies of its original's children, in order, and the copy of its original's parent, or the destination's root for the copied root; the live handles and every other node are kept |
| DeepClones.CopyNode | src/scene.rs:74 | `copy_node` succeeds exactly when the traversal succeeds and the destination's root is live; every traversed node then gets a fresh copy holding its data, whose children are the copies of its children in order and whose parent is the copy of its parent; the root's copy is appended to the destination root's children and names that root as its parent; no other node of the destination changes |
| DeepClones.CopyNodeLinks | src/scene.rs:74 | after spawning and linking, every copy holds its linked value, the copies are fresh and distinct, and the destination's nodes other than its root are unchanged |
| DeepClones.LinkedHierarchy | src/scene.rs:74 | copies holding their linked values reproduce their originals' data and hierarchy, and the root's copy names the destination's root as its parent |
| DeepClones.CopyRoots | src/scene.rs:73-79 | copying the roots in turn and merging the maps (later entries win) gives every node of every root's sub-graph a fresh copy holding its data, and changes no node of the destination but its root; when the sub-graphs are disjoint, the copies reproduce the hierarchy, every root's copy names the destination's root as its parent, and the root copies are appended to that root's children in the order of the roots |
| DeepClones.CopyRootsGrow | src/scene.rs:73-79 | copying one more root after the others extends both of these properties to the longer list of roots |
| DeepClones.CopyEachRoot | src/scene.rs:73-79 | the loop over the roots computes the merged copy |
| DeepClones.CloneCollider | src/scene.rs:99-107 | cloning one collider adds one entry to the result's colliders, keeps the binder, and keeps the result consistent with the physics |
| DeepClones.CloneColliders | src/scene.rs:100-108 | each cloned collider is attached to the cloned body and listed by it, and the binder is untouched |
| DeepClones.CloneCollidersValues | src/scene.rs:99-108 | the colliders loop adds one entry per source collider, in order; each is a fresh collider equal to its original with its parent set to the body's copy, and no earlier collider changes |
| DeepClones.CloneColliderValue | src/scene.rs:99-107 | cloning one collider adds one fresh collider equal to the original with its parent set to the body's copy, and keeps every other collider |
| DeepClones.CloneCollidersBody | src/scene.rs:103-105 | the colliders loop appends the clones, in order, to the collider list of the body's copy and changes no other body |
| DeepClones.CloneDescendant | src/scene.rs:90-112 | an unbound descendant changes nothing; a bound one gets a binder entry keyed by its copy, adds no other key, and keeps the result consistent with the physics |
| DeepClones.CloneDescendantValues | src/scene.rs:90-112 | one step binds a bound descendant's copy to a clone of its body: the same body whose colliders are fresh clones of the original's, in order, attached to the clone; no body or collider changes and no other binding |
| DeepClones.CloneDescendants | src/scene.rs:88-113 | every bound descendant gets a binder entry keyed by its copy, and the physics stays consistent with the result |
| DeepClones.CloneDescendantsValues | src/scene.rs:88-113 | the descendant loop binds the copy of every bound node of the list to a clone of its body and keeps every clone made before |
| DeepClones.CloneDescendantsLoop | src/scene.rs:88-113 | the loop over one root's descendants computes the descendant steps |
| DeepClones.CloneCollidersLoop | src/scene.rs:99-108 | the loop over one body's colliders computes the collider steps |
| DeepClones.CloneRootsPhysics | src/scene.rs:87-115 | every bound node under every root gets an entry, no other node does, and the physics stays consistent with the result |
| DeepClones.CloneRootsPhysicsValues | src/scene.rs:87-115 | after the outer physics loop, the copy of every bound node under every root is bound to a clone of its body |
| DeepClones.CloneEachRootPhysics | src/scene.rs:87-115 | the loop over the roots computes the outer physics loop |
| DeepClones.Mapped | src/scene.rs:81-84 | the images of a list under a map, one per element, in order |
| DeepClones.DeepCloneRoots | src/scene.rs:73-84 | the reported root copies are the copies the merged map gives the roots, in the order of the roots; each is a fresh node of the destination graph, and distinct roots have distinct copies |
| DeepClones.DeepCloneProperties | src/scene.rs:62-121 | every bound source descendant has a binder entry keyed by its own copy; every entry is keyed by a fresh node; copied bodies and colliders are live and attached to each other; no joint is copied |
| DeepClones.DeepCloneValues | src/scene.rs:86-115 | the destination binder binds the copy of every bound source descendant to a clone of its body, whose colliders are clones, in order, of the original's colliders attached to the clone |
| DeepClones.DeepCloneGraph | src/scene.rs:62-84 | every copy is a fresh node holding its original's data, and no node of the destination but its root changes; for disjoint sub-graphs, the hierarchy is reproduced and the reported root copies are appended, in order, to the destination root's children |
| DeepClones.DeepCloneNodes | src/scene.rs:62-121 | the loops of `deep_clone_nodes` compute the deep clone |
| DeepClones.PasteFrom | src/scene.rs:148-158 | pasting an empty clipboard panics; otherwise it deep-clones the children of the clipboard's root |
| DeepClones.Clipboard.constructor | src/scene.rs:43-51 | a new clipboard is empty |
| DeepClones.Clipboard.Clear | src/scene.rs:164-168 | clearing empties the clipboard and gives it a new graph and empty physics |
| DeepClones.Clipboard.FillFromSelection | src/scene.rs:124-146 | the fill completes exactly when every selected node is live (`root_nodes` panics otherwise) and the deep clone of the selection's root nodes into a new scene succeeds; the clipboard then holds that clone and is not empty, and otherwise it is left cleared |
| DeepClones.Clipboard.Paste | src/scene.rs:148-158 | pasting clones the clipboard's contents into the destination |
| PasteCommands.BinderRoundTrip | src/scene.rs:1493-1539 | unbinding the pasted nodes and binding them again restores every binding |
| PasteCommands.TakePastedPhysics | src/scene.rs:1516-1540 | revert reserves the pasted bodies, colliders and joints and unbinds the pasted nodes |
| PasteCommands.PastedPhysicsRoundTrip | src/scene.rs:1466-1540 | putting back what revert reserved gives the same bodies, colliders and joints at the same handles, and every binding the paste made |
| PasteCommands.PasteExecute | src/scene.rs:1434-1504 | the first execute succeeds exactly when the clipboard can be pasted, and selects the pasted roots; a later one restores the selection and the binder entries that revert kept; both record the selection they replace |
| PasteCommands.PasteRevert | src/scene.rs:1506-1553 | only an executed paste is undone: the replaced selection comes back and the pasted roots are no longer live; any other stage just becomes undefined |
| PasteCommands.PasteFinalize | src/scene.rs:1555-1580 | a reverted paste changes no live node, body, collider or joint, and no binding; any other stage becomes undefined |
| PasteCommands.PasteSelectsCopies | src/scene.rs:1434-1456 | the first paste succeeds exactly when the clipboard can be pasted, and selects the fresh copies of the roots |
| PasteCommands.PasteRedo | src/scene.rs:1460-1553 | undo restores the replaced selection; redo restores the same body, collider and joint pools, the paste's selection and, when they were current, its bindings |
| DeleteSelection.JointStepsContents | src/scene.rs:3500-3513 | a body's joint steps delete the joint whose first body it is and reset every joint whose second body it is |
| DeleteSelection.BodyDeletesLayout | src/scene.rs:3491-3513 | a body's steps are its colliders' deletions, in list order, then its deletion, then its joint steps |
| DeleteSelection.CascadeIsTraversal | src/scene.rs:3489-3515 | the worklist walk emits the physics steps of the traversal of the root nodes, in traversal order |
| DeleteSelection.PhysicsDeletesBodies | src/scene.rs:3489-3515 | the walk deletes the body of every bound traversed node, and no other body |
| DeleteSelection.PhysicsDeletesCollidersFirst | src/scene.rs:3491-3498 | every collider of a body is deleted before the body |
| DeleteSelection.WithoutRoot | src/scene.rs:3460-3467 | the selection loses one occurrence of the graph root; a non-graph selection becomes empty |
| DeleteSelection.DeleteSelectionGroup | src/scene.rs:3453-3526 | the group exists exactly when the selected nodes are live and the walk, given the pool's size in steps for each root node, panics nowhere; it is the selection change, the walk's physics steps, and one sub-graph deletion per root node |
| DeleteSelection.DeleteSelectionWalk | src/scene.rs:3469-3515 | when the selected nodes are live and each root node's own traversal completes, the walk visits those traversals, last root node first, and the group exists exactly when none of their bound bodies is dead |
| DeleteSelection.DeleteSelectionShape | src/scene.rs:3469-3523 | the group starts with the only selection change and ends with the sub-graph deletions of exactly the selected nodes without a selected ancestor |
| DeleteSelection.DeleteSelectionPhysics | src/scene.rs:3489-3515 | the group deletes exactly the bodies of the bound nodes of the deleted sub-graphs, each after its colliders |
| DeleteSelection.MakeDeleteSelectionCommand | src/scene.rs:3453-3526 | the loops of `make_delete_selection_command` build exactly the group, with the same step bound on the walk |
| DeleteSelection.DeleteSelectionKeepsRoot | src/scene.rs:3459-3467 | when the root is selected at most once, the group never deletes the root's sub-graph |
| DeleteSelection.RootListedTwiceIsDeleted | src/scene.rs:3465-3467 | a selection listing a fresh graph's root twice yields a group that deletes the root's sub-graph |
| DeleteSelection.RootListedThriceIsDeletedTwice | src/scene.rs:3459-3523 | a selection listing a fresh graph's root three times yields the selection change to the root listed twice and two deletions of the root's sub-graph |
| Saving.AssociatedNodeSearch | src/scene.rs:195-201 | in a one-to-one binder, the search finds the node bound to the body, or `NONE` |
| Saving.JointReportsAgree | src/scene.rs:193-213 | the validation as written completes exactly when every detached joint's associated node is live, and then reports what the corrected validation reports |
| Saving.DetachedJointPanics | src/scene.rs:193-213 | as written, a live joint whose first body is `NONE` makes the validation panic when no node is bound to `NONE` |
| Saving.ValidateJoints | src/scene.rs:193-213 | the validation loop computes the as-written reports |
| Saving.JointReports | src/scene.rs:193-213 | corrected: the validation reports nothing exactly when no listed joint misses a body, and never reports more joints than it is given |
| Saving.DenseTrianglesPreserve | src/scene.rs:248-259 | each dense triangle's indices pick out the positions of the triangle's corners |
| Saving.DenseNavmeshShape | src/scene.rs:235-259 | the conversion succeeds exactly when every triangle's corners are live vertices, with one position per live vertex and one triangle per live triangle |
| Saving.DenseNavmeshPreserves | src/scene.rs:235-259 | the dense mesh has one triangle per live triangle, in pool order, and each triangle's indices pick out its corners' positions |
| Saving.SaveNavmesh | src/scene.rs:235-259 | the conversion loops compute the dense mesh |
| Saving.DenseNavmeshes | src/scene.rs:233-261 | every live navigation mesh is converted, in pool order |
| Saving.SaveOutcomes | src/scene.rs:186-284 | corrected: saving refuses exactly when some live joint misses a body, and otherwise yields one dense mesh per live navigation mesh, in order |
| Saving.SaveNavmeshes | src/scene.rs:233-261 | the loop over the navigation meshes computes their conversions |

## Left out

- File and engine I/O in `save` are not modelled: `scene.clone`, the particle reset, the binder rebuilt from the physics description, the path, the file write and the message strings (src/scene.rs:216-284). The model keeps the validation and the navmesh conversion.
- `LoadModelCommand`'s first execute is not modelled. It loads a resource asynchronously and instantiates it, so the model starts from a command whose model is already in the scene. Its animations are not modelled either.
- `SetMeshTextureCommand` is not modelled, because it is texture handling.
- `SetEmitterNumericParameterCommand` is not modelled, because it converts between `f32` and `u32` with a `-1.0` sentinel.
- The transform helpers of `GraphSelection` are floating-point math and are not modelled: `global_rotation_position`, `offset`, `rotate`, `scale` and `local_*` (src/scene.rs:3357-3447).
- `name()` of every command is not modelled. It only formats text.
- `Clipboard::is_empty` is not modelled separately, because it only reads the `empty` flag that `Clipboard.Data()` exposes.
- The message channel is modelled as a count of `SelectionChanged` messages. Sending cannot fail.
- Property values are one opaque type, and the setter commands of one family share one datatype case. Move, scale and rotate share `TransformState`. The body, collider and joint setters share `PhysicsPropertyState`. Per-field Rust types are not modelled.
- rg3d's `Pool`, `Graph`, `SubGraph`, `copy_node` and `Binder` are specified by how the editor uses them. Their internals are not modelled.
- `Spawn` takes the lowest vacant slot. rg3d's free-list order is not modelled.
- Iteration over a `HashMap` is modelled in insertion order for the old-to-new maps of `deep_clone_nodes`. The binder search in `save` reads the binder's backward map (`Saving.AssociatedNode`); it agrees with the source's search of the forward map when the binder is one-to-one (`Consistent`, `Saving.AssociatedNodeSearch`). For a binder that maps two nodes to one body, which node the source finds depends on the `HashMap`'s order, and that is not modelled.
- Traversals take a fuel bound: the pool's size for one root, and the pool's size for each root node in the walk of `make_delete_selection_command`. A cyclic parent chain, which rg3d never builds, is not modelled: the source would loop forever, and the model gives `None`.
- DeleteSelection.DeleteSelectionGroup: the walk gets the pool's size in steps for each root node. That is enough whenever each root node's own traversal completes (`DeleteSelection.DeleteSelectionWalk`), including root nodes listed twice. Running out of steps is `None`, which happens only on a cyclic chain.
- DeleteSelection.MakeDeleteSelectionCommand: its walk loop counts down the same step bound and returns `None` when it runs out; the source loop has no counter.
- GraphCommands.AddNodeRedo: children lists are not stated; the other nodes keep their parents and data. The root's list loses the node on undo and gets it back at the end on redo, which the model does not state.
- The `Binder` is assumed one-to-one wherever a lemma says `Consistent`.
- SceneGraph.AddNode: a node's own children are not re-linked. The model spawns the node with an empty children list; rg3d's `add_node` would also make each listed child point back at it. The editor adds freshly built nodes, whose lists are empty.
- SceneGraph.AddNode: the root's children list changes (the new node is appended); the contract states the parent link and the other nodes' parents and data, not the root's list.
- DeepClones.CopyNode: rg3d's `copy_node` is not part of this model; the copy is specified by its result. Each copy is written with its final parent and children at once, not through rg3d's own sequence of `add_node` and `link_nodes` calls.
- DeepClones.CopyRoots: the hierarchy, the root copies' parent and their order are stated only when the roots' sub-graphs are disjoint (`DisjointRoots`), as they are for the root nodes of a selection. When two sub-graphs share a node, the merged map keeps its later copy, and the links of the earlier copies are not described.
- DeepClones.DeepCloneGraph: the same disjointness condition as `DeepClones.CopyRoots` applies to its hierarchy clauses.
- DeepClones.CloneDescendants: its own contract states the binder keys and consistency with the physics. The values of the cloned bodies and colliders are stated by `DeepClones.CloneDescendantsValues`.
- DeepClones.CloneRootsPhysics: the same split as for `DeepClones.CloneDescendants`. The values are stated by `DeepClones.CloneRootsPhysicsValues`.
- Saving.DenseNavmeshPreserves: assumes at most 2^32 vertices per mesh. Beyond that, the `as u32` cast would truncate the indices.
- PasteCommands.PasteRedo: states the restored physics, bindings and selection, but not that the pasted sub-graphs return to their exact handles.
- DeleteSelection.DeleteSelectionKeepsRoot: requires the root to be selected at most once, because the code removes only the first occurrence.
- Commands.Execute: its contract is about dispatch only. Each command's behaviour is stated by that command's own members.
- Commands.Execute: sends `ChangeSelection` to the corrected `SelectionCommands.ChangeSelectionSwap`, not to the as-written comparison of src/scene.rs:1367-1387 (`SelectionCommands.ChangeSelectionSwapAsWritten`). So the command groups and `Runtime.CommandGroup` model the program with that fault fixed; the Findings table shows the difference.
- Commands.Revert: the same holds as for `Commands.Execute`, including the corrected selection change.
- Commands.Finalize: the same holds as for `Commands.Execute`.
- Saving.JointReportsAsWritten: has no contract of its own. `Saving.JointReportsAgree` and `Saving.DetachedJointPanics` state what it does.
- Saving.Save: has no contract of its own. `Saving.SaveOutcomes` states what it does.
- DeleteSelectionCommands.DeleteSelectionCommand: it only maps the proved steps onto `SceneCommand` cases, and carries no contract of its own.

## Findings

| source | as written | input that shows it | evidently intended | confidence | as-written member | corrected member |
|---|---|---|---|---|---|---|
| src/scene.rs:1367-1387 | `ChangeSelectionCommand` compares the new selection with the current one using `GraphSelection::eq`, which is a one-way subset test. Revert of a change that only added nodes sees "equal" and does nothing. | Select `[x]`, change to `[x, y]`, then undo: `[x, y]` stays selected | Undo restores the previous selection, comparing node lists regardless of order | not executed | SelectionCommands.UndoGrowingSelectionFails | SelectionCommands.ChangeSelectionUndo |
| src/scene.rs:193-213 | The validation indexes the engine graph with the node bound to a detached joint's first body. That node is `NONE` whenever the first body is `NONE`, so the save panics instead of reporting the joint. | A live joint with `body1 == NONE` | Report the invalid joint and refuse to save | not executed | Saving.DetachedJointPanics | Saving.SaveOutcomes |
