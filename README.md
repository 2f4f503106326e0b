# Disk tree size bookkeeping, modelled in Dafny

The system keeps a file/folder tree in one table, `disk_tree`. Each row has an
id, an optional url, a type (FILE or FOLDER), an optional size, a date, a full
route and an optional parent id. The service does four things:

- It imports batches of items. The batch is first validated, then written.
  Each item becomes a create, a file update in place, a file move or a
  folder move.
- It deletes single nodes.
- It returns a node with its subtree.
- It lists the nodes updated in the 24 hours up to a given date.

Whenever a node's size enters or leaves a folder, `update_parent` walks up the
parent chain. It adds or subtracts the size at every ancestor and stamps each
one with the change's date. The point of this bookkeeping is that every
folder's size equals the sum of its children's sizes.

The model has five modules:

- `Nodes` (`nodes.dfy`) models the store. `NodeStore` is a class whose only
  field is the table, a `map<Id, Row>`. Its methods are the repository
  operations, and each one states the exact new table.
- `Propagation` (`propagation.dfy`) models `update_parent`.
  - `Walk` and `Ancestors` are the ancestor chain as a function. The chain
    records whether the walk would come back to a node it has passed.
  - `Propagate` is the whole effect of `update_parent` as a function.
  - `UpdateParent` is the loop itself, proved equal to `Propagate`.
- `Router` (`router.dfy`) models the endpoints.
  - `Validate` is the validation loop of `post_imports`, specified by
    `ItemError` and `BatchValid`.
  - `ApplyItem` and `ApplyAll` specify the write loop, and `WriteItem` and
    `PostImports` are proved against them.
  - `Removal` specifies `delete_delete_id` and `DeleteById` is proved
    against it.
  - `GetNode` with `CheckChildren` builds the tree. `GetUpdates` builds the
    update list.
- `Consistency` (`consistency.dfy`) states the size invariant:
  - `SizesAreSums` says every folder's size is the total of its children's
    sizes, with a missing size counting as 0.
  - The lemmas prove which writes keep the invariant: create, delete, folder
    move, file move without a size change, and file resize.
  - `NewBatchKeepsSums` lifts this to a whole batch: a valid batch of new
    nodes, written one after another, keeps the invariant and leaves no
    cycle.
  - One lemma shows that a file move with a size change breaks it.
- `Scenario` (`scenario.dfy`) holds worked examples.
  - One follows a root folder through an import of two files, a resize and
    a delete.
  - Two show batches that pass validation and still break the sums: a
    folder moved after a new file was written into it, and a deleted
    folder imported again.

Times are integers (seconds); the 24-hour window is `Day = 86400`.

### Behaviour of the code that the model keeps

- **File moves subtract the new size.** Withdrawing the file's old size
  from its old ancestors would keep the sums. The code instead subtracts
  the item's new size along the old chain (`routes/router.py:79-81`), and
  the model does the same.
  - `FileMoveKeepsSums` proves the sums survive a move that keeps the size.
  - `FileMoveWithResizeDrifts` shows the failure when the size changes. A
    folder holding one 5-byte file that moves away as a 9-byte file is left
    at -4 with no children.
- **Folder moves use the row read during validation.** The old ancestors
  are stamped with the folder's own old date. The row is rewritten with
  that old date, url and size and only the parent replaced
  (`routes/router.py:68-72`). If an earlier item of the same batch changed
  the folder's size, the stale size is moved; `WriteItem` uses the
  snapshot too. `StaleSnapshotBreaksSums` shows the effect. A new 5-byte file
  is written into an empty folder, and the same batch then moves that folder.
  The folder is written back at size 0 with the file under it.
- **No write-time cycle check.** Nothing stops a folder from being moved
  under its own descendant (`routes/router.py:42-51`). After such a move,
  the loop of `update_parent` never ends. The recursion of `check_children`
  goes on until the interpreter's recursion limit raises `RecursionError`,
  which the service answers with HTTP 500. The model reports these cases as
  outcomes instead of assuming acyclicity:
  - `UpdateParent` returns `diverges`, and the write pass and delete then
    return `Diverged`.
  - `GetNode` returns `Cyclic` exactly when the requested id lies on a
    cycle of parent links (`OnCycle`). A cycle elsewhere in the table does
    not affect it, as in the source. `CycleMeansEndlessWalk` shows that
    `update_parent` never stops from any node of such a cycle.
- **Deletes do not cascade.** `delete_delete_id` removes only the named
  row. Its children keep a parent id that names no row, and they count in
  no folder's size. `DeleteKeepsSums` proves the remaining folders stay
  balanced.
  - If a node with the deleted id is created later, the old children become
    its children again. Therefore `CreateKeepsSums` requires that no stored
    row names the new id as its parent. `RecreatedFolderAdoptsOrphans`
    shows what happens without that premise: a folder is deleted and then
    imported again in a valid batch. It starts with no size while its old
    5-byte file is under it again.
- **A FILE with a url but no size** makes the code raise `TypeError` during
  validation, before anything is written (`routes/router.py:38`). The model
  rejects the batch with `TypeFault`.
- **A resize whose stored size is missing** would raise `TypeError` at
  `routes/router.py:76`, after earlier items were written. The model stops
  with `Failed(TypeFault)` there.

## Model

| member | source | states |
|---|---|---|
| Nodes.Overwrite | core/nodes_repository.py:75-84 | The keys stay the same and every other row is unchanged. If the id is stored, its id, type and route are kept, and its date, size, url and parent become the given values. A missing id changes nothing. |
| Nodes.NodeStore.CreateNode | core/nodes_repository.py:26-37 | Succeeds exactly when the id is new; the row is then stored with all seven fields under its id. A duplicate id leaves the table unchanged. |
| Nodes.NodeStore.ReadNode | core/nodes_repository.py:39-49 | Returns the row whose id is the requested id, or nothing exactly when no row has it. |
| Nodes.NodeStore.ReadChildren | core/nodes_repository.py:51-61 | Returns exactly the stored rows whose parent is the id, each once. |
| Nodes.NodeStore.UpdateNode | core/nodes_repository.py:75-89 | The new table is `Overwrite` of the old one; a caller that passes no url stores none. |
| Nodes.NodeStore.DeleteNode | core/nodes_repository.py:91-100 | Removes that id only; every other row, children included, is unchanged. |
| Nodes.NodeStore.UpdatesTillDate | core/nodes_repository.py:102-112 | Returns exactly the stored rows with `d - 86400 <= date <= d`, each once. |
| Propagation.Walk | core/helpers.py:4-16 | The ancestors visited are distinct stored ids, none of them already visited. |
| Propagation.WalkLinks | core/helpers.py:13-16 | The walk starts at the given parent and follows parent links. It stops exactly when the next link is missing or leads to no row, or else is cyclic; a cyclic walk returns to a visited node. |
| Propagation.AncestorsFollowLinks | core/helpers.py:4-16 | The chain of `update_parent` starts at the parent and follows parent links. A chain that stops ends at the first ancestor without a stored parent, and a chain that never stops comes back to one of its own nodes. |
| Propagation.NotOnOwnChain | core/helpers.py:13-16 | A node is not on the chain that starts at its own parent, unless that chain never stops. |
| Propagation.ChildNotOnParentChain | core/helpers.py:13-16 | Nor is any child of that node. |
| Propagation.Bumped | core/helpers.py:5-12 | An ancestor's size becomes its old size (a missing size counting as 0) plus the signed change. It gets the new date and a cleared url, and keeps its id, type, route and parent. |
| Propagation.MissingParentChangesNothing | core/helpers.py:2-3 | A parent id that is absent or names no row leaves the table unchanged, and the walk stops. |
| Propagation.PropagatedKeepsAncestors | core/helpers.py:11-12 | Propagation writes each parent link back unchanged, so a later walk from any parent follows the same chain. |
| Propagation.AddThenSubtractRestores | core/helpers.py:4-16 | Adding a size along a chain and then subtracting it restores every size (missing as 0), link, type and route. Rows off the chain are untouched. |
| Propagation.VisitAncestor | core/helpers.py:5-16 | One loop turn rewrites the ancestor with the shifted size, the date and no url. It returns the stored parent exactly when there is one. |
| Propagation.UpdateParent | core/helpers.py:1-16 | The new table and the divergence flag are exactly `Propagate`. Every chain node is bumped once by plus or minus the child size (missing as 0) and nothing else changes. |
| Router.DistinctIff | routes/router.py:24-26 | The set of ids has as many elements as the batch exactly when no id repeats. |
| Router.IndexIn | routes/router.py:43-46 | Finds the last earlier batch item with the given id, or reports that none has it. |
| Router.CheckItem | routes/router.py:33-63 | Fails exactly when `ItemError` finds a broken rule, and with that rule's error. The order is self-parent, folder fields, file fields (a missing size giving `TypeFault`), parent missing or not a folder, type change, nothing to update. On success it returns the staged row with the computed route, plus the stored row of that id if any. |
| Router.Validate | routes/router.py:22-63 | Duplicate ids give `DuplicateIds`. It succeeds exactly when the batch is valid, and an error names the first failing item. A success returns all staged rows in order and the stored rows of the ids being updated. It only reads the store. |
| Router.ApplyAll | routes/router.py:65-86 | The write pass never produces a validation rejection. |
| Router.WriteItem | routes/router.py:65-86 | The new table and outcome are exactly `ApplyItem`: a create, a folder move, a file update in place or a file move, each with its propagation walks. |
| Router.PostImports | routes/router.py:22-86 | Rejected exactly when the batch is invalid, and then the table is unchanged. Otherwise the table is the write pass over the staged rows in order. |
| Router.DeleteById | routes/router.py:89-98 | Exactly `Removal`: a missing id gives NotFound and no change. Otherwise the ancestors lose the node's size, and only that row is removed. |
| Router.CheckChildren | routes/router.py:114-120 | On success the tree shows the row, every element's children are exactly the stored rows naming it as parent, each once, recursively. The only failure is `Cyclic`, and only when the first node of the recursion path (the row itself at the top level) lies on a cycle of parent links. |
| Router.CycleMeansEndlessWalk | core/helpers.py:4-16 | On a cycle of parent links, the walk of `update_parent` started from any node of the cycle never stops. |
| Router.TreeOffCycles | routes/router.py:114-120 | A finite tree whose every element lists exactly its stored children never contains a node of a cycle of parent links. |
| Router.GetNode | routes/router.py:101-124 | A missing id gives NotFound. A success is the tree of the stored row. For a stored id, the read fails with `Cyclic` exactly when the id lies on a cycle of parent links, and succeeds otherwise. |
| Router.GetUpdates | routes/router.py:132-137 | Returns exactly the stored nodes dated within 24 hours up to `d`, each once, shown without their route. |
| Consistency.Repair | core/helpers.py:4-12 | Suppose every folder is balanced except the parent, which is off by `delta`. Then shifting the parent's chain by `delta` balances every folder. |
| Consistency.AttachKeepsSums | routes/router.py:85-86 | Inserting a row and growing its parent's chain by its size keeps every folder balanced, provided that chain stops. |
| Consistency.CreateKeepsSums | routes/router.py:82-86 | Creating a node keeps every folder balanced and finishes. This needs a new folder to start at size 0, a stored parent whose chain stops, and no stored row already naming the new id as parent. |
| Consistency.DeleteKeepsSums | routes/router.py:91-98 | Deleting a node whose parent chain stops finishes and keeps every remaining folder balanced. |
| Consistency.DetachKeepsSums | routes/router.py:68-69 | Withdrawing a node's size from its old chain and dropping its row keeps every other folder balanced. The node is off that chain, and its children keep their links and sizes. |
| Consistency.FolderMoveKeepsSums | routes/router.py:67-72 | A folder moved with its current row, not under itself or a descendant, finishes and keeps every folder balanced. |
| Consistency.ResizeKeepsSums | routes/router.py:74-76 | A file updated in place under the same parent finishes and keeps every folder balanced. |
| Consistency.FileMoveDetaches | routes/router.py:74-81 | After the row is rewritten, subtracting the file's size along the old chain equals detaching the old row and re-inserting the new one, as long as the size is unchanged. |
| Consistency.FileMoveKeepsSums | routes/router.py:77-86 | A file moved with its size unchanged finishes and keeps every folder balanced, provided both chains stop. |
| Consistency.FileMoveWithResizeDrifts | routes/router.py:79-81 | A balanced table in which a 5-byte file moves out of its folder as a 9-byte file. The old folder ends at -4 with no children, so the sums break. |
| Consistency.ItemAccepted | routes/router.py:33-51 | In an item the validation pass accepts, a folder has no size. A parent, if given, is the last earlier item of the batch with that id when there is one, and that item is a folder; otherwise it is a stored folder. |
| Consistency.CreateKeepsNoCycles | routes/router.py:82-86 | Creating a node whose parent is stored or absent, in a table where no walk goes round, and which no stored row names as parent, leaves every walk stopping. |
| Consistency.NewRowsKeepSums | routes/router.py:65-86 | A write pass over staged rows that are all new finishes and keeps every folder balanced with no walk going round. The rows must have distinct new ids that no stored row names as parent, folders must start at size 0, and each parent must be stored or come earlier in the batch. |
| Consistency.NewBatchKeepsSums | routes/router.py:22-86 | A batch the validation pass accepts, all of whose ids are new and named as parent by no stored row, is written in full. Every folder stays balanced and no walk goes round. |
| Scenario.CreateUnderRoot | routes/router.py:82-86 | Creating a node directly under a root folder finishes. The folder grows by the node's size (missing as 0), the node is stored as given, and no other row changes. |
| Scenario.ResizeUnderRoot | routes/router.py:74-76 | Re-importing a file in place under a root folder finishes. The folder grows by the new size minus the old size. The file's row takes the new date, url, size and parent, and no other row changes. |
| Scenario.DeleteUnderRoot | routes/router.py:91-98 | Deleting a node directly under a root folder finishes. The table loses exactly that id, and the folder shrinks by the node's size. |
| Scenario.CreateTwoUnderRoot | routes/router.py:65-86 | A write pass of two new nodes under a root folder finishes, stores both, and grows the folder by both sizes. |
| Scenario.ImportFolderWithTwoFiles | routes/router.py:65-86 | One batch holding a new root folder without a size and two new nodes in it finishes, and the folder's size is the sum of the two sizes. Both nodes are stored as given. |
| Scenario.ImportResizeDeleteExample | routes/router.py:65-98 | Importing a folder with files of 5 and 7 bytes gives it size 12. Re-importing the first file at 9 bytes gives 16. Deleting the second file gives 9. Every step finishes. |
| Scenario.StaleBatchValid | routes/router.py:22-63 | The batch of a new file in a stored folder followed by a move of that folder passes validation. The write pass receives the folder's row as it was before the batch. |
| Scenario.StaleSnapshotBreaksSums | routes/router.py:53-72 | Start from a balanced table. A valid batch writes a 5-byte file into a stored empty folder and then moves that folder to another root. The move writes the folder back at size 0 with the file under it, and the old root keeps 5 bytes with no children, so the sums break. |
| Scenario.RecreatedFolderAdoptsOrphans | routes/router.py:82-98 | Start from a balanced root folder with a 5-byte file. Deleting the folder finishes and the rest stays balanced, but the file keeps naming it. A valid batch importing a folder of the same id then finishes, and the new folder has the file as its child but no size, so the sums break. |

## Left out

- Ids are non-empty strings. The code tests `if item.parentId:` and `if node.parent_id:`, and an empty id would read as no parent.
- The database connection, SQL text, logging and the wrapping of store errors into HTTP 500 are left out. Store calls are total operations on the map. The insert of an existing id, a store error in the code, is `CreateNode` returning false and `Failed(Conflict)`.
- `read_children_by_route` is not modelled. It is unused and its substring match has no precise meaning.
- The history endpoint is an empty stub and no code records history, so there is nothing to model.
- The schema's `updateDate` check compares with the wall clock and is left out. The batch date is a parameter.
- Concurrency and transactions are left out. Every call is awaited in sequence, and the model runs them in sequence.
- Walks that never stop are left out. The source's endless loop in `update_parent` becomes the `Diverged` outcome, and the model does not describe what the source does after that point.
- The recursion depth of `check_children` is not modelled. Each level nests another `await`, so CPython raises `RecursionError` (HTTP 500) once the nesting passes the interpreter's recursion limit. On a cycle this always happens, and `Cyclic` stands for that error. A tree without a cycle but deeper than the limit fails the same way in the source, while `GetNode` returns it.
- Consistency.FolderMoveKeepsSums: assumes the folder's validation-time row is still its current row. An earlier item of the same batch that changed the folder's size makes the code move a stale size, as `StaleSnapshotBreaksSums` shows.
- Consistency.NewBatchKeepsSums: covers batches of new nodes only. Batches that also update stored nodes are covered one write at a time by the lemmas above, not as a whole batch.
- The FastAPI wiring, exception handlers and the pydantic schemas are not part of this model, beyond the field names and the FILE/FOLDER types.
