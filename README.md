# Drag-and-drop lists, modelled in Dafny

This project models `DragDropListsComponent`, the two-panel list widget of an
Angular application. The component keeps four lists of items `{id, name}`:
the left and right panels, and one selection per panel. Its operations are:

- `drop` handles a finished drag gesture:
  - a drag within one panel moves one item with the CDK helper `moveItemInArray`;
  - a drag to the other panel moves the dragged item alone with `transferArrayItem`;
  - when the dragged item is selected, it moves every selected item (`handleMultiItemDrag`).

  Both selections are cleared afterwards.
- `toggleSelect`, `isSelected`, `hasSelectedItems` and `clearSelections` manage
  the selections by item id.
- `moveSelectedToRight` and `moveSelectedToLeft` are the batch-move buttons.
  They append the selection to the other panel and filter it out of its own.

The component is imperative, and so is the model. `DragDropLists.DragDropListsComponent`
is a class whose four `seq<Item>` fields the methods reassign. Each method's
`ensures` ties the new state to specification functions of the old state.
Lemmas prove what the component promises about those functions.

The files:

- `splice.dfy` (module `Splice`): the array operations as functions on sequences.
  These are JavaScript's `splice` with one element removed (`RemoveAt`) or inserted
  (`InsertAt`), and the CDK helpers `moveItemInArray` and `transferArrayItem`.
- `items.dfy` (module `Items`): the `Item` and `Side` types, and the by-id
  queries: `findIndex`, `some`, and the filter of the batch moves.
  It also holds lemmas on ids and multisets.
- `multi_drag.dfy` (module `MultiDrag`): the multi-item drag.
  - Which source indices move: found, filtered, sorted.
  - How the loop removes them at the shifted index `selectedIndices[i] - i`.
  - Where it inserts them: `currentIndex - i` or `currentIndex`, with JavaScript's
    treatment of a negative `splice` start.
  - The loop invariant and the properties of the result.
- `drag_drop_lists.dfy` (module `DragDropLists`): what `toggleSelect` does to a
  selection and its properties, and the component class.

Side identity (which panel a drag came from) is a `Side` parameter
(`Left`/`Right`). The component derives it from the drop-list container id.
A drag event becomes its parts: source side, target side, previous index,
current index and dragged item.

## Model

| member | source | states |
|---|---|---|
| Splice.RemoveAt | src/app/drag-drop-lists/drag-drop-lists.component.ts:127 | `splice(i, 1)` shortens the list by one; the removed element plus the result make up the original multiset |
| Splice.InsertAt | src/app/drag-drop-lists/drag-drop-lists.component.ts:131 | `splice(i, 0, x)` lengthens the list by one, puts `x` at index `i`, and adds exactly `x` to the multiset |
| Splice.RemoveAtIndices | src/app/drag-drop-lists/drag-drop-lists.component.ts:127 | after removal, elements before `i` stay put and those after it move down by one |
| Splice.InsertAtIndices | src/app/drag-drop-lists/drag-drop-lists.component.ts:131 | after insertion, elements before `i` stay put and those from `i` on move up by one |
| Splice.RemoveInsert | src/app/drag-drop-lists/drag-drop-lists.component.ts:127-131 | removing what was just inserted at the same index gives back the original list |
| Splice.MoveItemInArray | src/app/drag-drop-lists/drag-drop-lists.component.ts:59-63 | same-list reorder: the length and the multiset are preserved, the moved element lands at `to`, and the other elements keep their relative order |
| Splice.TransferArrayItem | src/app/drag-drop-lists/drag-drop-lists.component.ts:68-73 | cross-list move: the source loses the element at `from` (re-inserting it there restores the source), the target gains it at `to` (removing it restores the target), and the two lists together keep their multiset |
| Items.FindIndex | src/app/drag-drop-lists/drag-drop-lists.component.ts:140 | `findIndex` by id: -1 exactly when no element has the id, otherwise the first index with that id |
| Items.HasIdCons | src/app/drag-drop-lists/drag-drop-lists.component.ts:160-163 | the `some(i => i.id === id)` test `HasId` holds exactly when the first item has the id or some later one does |
| Items.Keep | src/app/drag-drop-lists/drag-drop-lists.component.ts:186-188 | the filter returns a list no longer than its input, and every item it keeps is an item of the input whose id is selected (`selected`) or not selected (`!selected`); the converse is `KeepMembers` |
| Items.KeepMembers | src/app/drag-drop-lists/drag-drop-lists.component.ts:186-188 | the batch filter keeps exactly the items whose id is not selected (and its complement exactly those whose id is) |
| Items.KeepPartition | src/app/drag-drop-lists/drag-drop-lists.component.ts:186-188 | the kept and the filtered-out items together are the original multiset |
| Items.KeepAppend | src/app/drag-drop-lists/drag-drop-lists.component.ts:186-188 | filtering distributes over concatenation |
| Items.KeepUnique | src/app/drag-drop-lists/drag-drop-lists.component.ts:186-188 | filtering never introduces a repeated id |
| Items.BatchMoveConservesIds | src/app/drag-drop-lists/drag-drop-lists.component.ts:183-188 | appending the selection to one panel and filtering it out of the other keeps the multiset of ids of the two panels, when every selected id is in the source panel and no id repeats |
| DragDropLists.Toggled | src/app/drag-drop-lists/drag-drop-lists.component.ts:140-145 | the toggled selection grows by one when the id was absent and shrinks by one when it was present |
| DragDropLists.ToggleFlips | src/app/drag-drop-lists/drag-drop-lists.component.ts:138-165 | on a selection without repeated ids, toggling flips whether the item's id is selected |
| DragDropLists.ToggleKeepsOthers | src/app/drag-drop-lists/drag-drop-lists.component.ts:138-165 | toggling leaves every other id's selection state unchanged |
| DragDropLists.ToggleKeepsUnique | src/app/drag-drop-lists/drag-drop-lists.component.ts:140-152 | toggling keeps a selection free of repeated ids |
| DragDropLists.ToggleTwiceRestores | src/app/drag-drop-lists/drag-drop-lists.component.ts:138-165 | toggling the same item twice restores the selection state of every id |
| DragDropLists.ToggleStaysWithin | src/app/drag-drop-lists/drag-drop-lists.component.ts:140-145 | when the selection and the toggled item belong to a panel, so does the toggled selection |
| MultiDrag.FoundIndices | src/app/drag-drop-lists/drag-drop-lists.component.ts:116-118 | the found indices are in range, each names a selected id, there are no more of them than selected items, and they are distinct when the selection has no repeated id |
| MultiDrag.FoundIndicesComplete | src/app/drag-drop-lists/drag-drop-lists.component.ts:116-118 | on a source without repeated ids, every position whose id is selected is found |
| MultiDrag.InsertSorted | src/app/drag-drop-lists/drag-drop-lists.component.ts:118 | one insertion step of the ascending sort keeps the list sorted and adds exactly the one element |
| MultiDrag.SortAscending | src/app/drag-drop-lists/drag-drop-lists.component.ts:118 | `sort((a, b) => a - b)` returns a sorted permutation of its input |
| MultiDrag.SelectedIndices | src/app/drag-drop-lists/drag-drop-lists.component.ts:116-118 | the loop's indices are in range, name selected ids, number at most the selection, and strictly increase when the selection has no repeated id |
| MultiDrag.SelectedIndicesExact | src/app/drag-drop-lists/drag-drop-lists.component.ts:116-118 | on a source without repeated ids, an index is listed exactly when the id at that position is selected |
| MultiDrag.RemoveSortedPartition | src/app/drag-drop-lists/drag-drop-lists.component.ts:121-127 | the items the loop leaves in the source and the items it picks together are the original source's multiset |
| MultiDrag.RemoveSortedIsKeep | src/app/drag-drop-lists/drag-drop-lists.component.ts:116-127 | when the indices are exactly the selected positions, the source after the loop is the batch filter's result: the selected items are gone and the rest keep their order; the picked items are the selected ones in source order |
| MultiDrag.SpliceStart | src/app/drag-drop-lists/drag-drop-lists.component.ts:131 | the start `splice` uses: an index in range is used as is; a negative one counts back from the end and stops at 0 |
| MultiDrag.InsertMoved | src/app/drag-drop-lists/drag-drop-lists.component.ts:129-131 | the target after one `splice(targetIndex, 0, item)` per moved item, each at the start `SpliceStart` gives for `currentIndex - i` or `currentIndex`, has grown by exactly the number of moved items |
| MultiDrag.InsertMovedMultiset | src/app/drag-drop-lists/drag-drop-lists.component.ts:130-131 | the target gains exactly the moved items |
| MultiDrag.InsertMovedFixed | src/app/drag-drop-lists/drag-drop-lists.component.ts:130-131 | when every item is inserted at `currentIndex`, the moved items form one block there in reverse order |
| MultiDrag.InsertMovedKeepsTarget | src/app/drag-drop-lists/drag-drop-lists.component.ts:130-131 | filtering the (selected) moved items back out of the new target gives the old target: its own items keep their relative order |
| MultiDrag.LoopInit | src/app/drag-drop-lists/drag-drop-lists.component.ts:121 | before the first round the loop invariant holds with nothing moved |
| MultiDrag.LoopIndex | src/app/drag-drop-lists/drag-drop-lists.component.ts:123-124 | in round `i` the adjusted index `selectedIndices[i] - i` is in range of the shrunken source and finds the item originally at `selectedIndices[i]` |
| MultiDrag.LoopStep | src/app/drag-drop-lists/drag-drop-lists.component.ts:121-132 | one round of splicing out and splicing in preserves the loop invariant |
| MultiDrag.LoopDone | src/app/drag-drop-lists/drag-drop-lists.component.ts:121-132 | after the last round the source has lost exactly the listed items and the target has gained the picked items in insertion order |
| MultiDrag.MultiMoved | src/app/drag-drop-lists/drag-drop-lists.component.ts:116-132 | a multi-item drag keeps the total length, and the target grows by as many items as the source loses, at most the number of selected items |
| MultiDrag.MultiMovedConserves | src/app/drag-drop-lists/drag-drop-lists.component.ts:116-132 | a multi-item drag neither loses nor creates an item: the two panels keep their combined multiset |
| MultiDrag.MultiMovedIsBatch | src/app/drag-drop-lists/drag-drop-lists.component.ts:116-132 | on a source without repeated ids, the source after a multi-item drag is the batch filter's result, and the target receives the selected items in source order, one at a time |
| MultiDrag.MultiMovedKeepsTarget | src/app/drag-drop-lists/drag-drop-lists.component.ts:130-131 | when no target item is selected, the target's own items keep their relative order |
| MultiDrag.MultiMovedReversed | src/app/drag-drop-lists/drag-drop-lists.component.ts:130-131 | when the drop index is not past the drag index, the moved items sit as one block at the drop index in reverse source order |
| MultiDrag.BackwardDropReverses | src/app/drag-drop-lists/drag-drop-lists.component.ts:116-132 | dragging item 1 of `[1, 2, 3]`, with 1 and 3 selected, to index 0 of an empty panel leaves `[2]` and produces `[3, 1]` |
| DragDropLists.SampleIdsUnique | src/app/drag-drop-lists/drag-drop-lists.component.ts:37-50 | the sample data (ids 1 to 8 on the left, 9 and 10 on the right) has no id twice across the two panels |
| DragDropLists.DragDropListsComponent.TargetUnselected | src/app/drag-drop-lists/drag-drop-lists.component.ts:121-132 | under the invariant, no item of the drag's target panel has an id selected on the source side, so `MultiMovedKeepsTarget` applies to every drop and the target's own items keep their order |
| DragDropLists.DragDropListsComponent.constructor | src/app/drag-drop-lists/drag-drop-lists.component.ts:28-33 | all four lists start empty, which satisfies the invariant |
| DragDropLists.DragDropListsComponent.OnInit | src/app/drag-drop-lists/drag-drop-lists.component.ts:35-51 | `ngOnInit` loads the sample items, leaves the selections alone, and with nothing selected the invariant holds |
| DragDropLists.DragDropListsComponent.Drop | src/app/drag-drop-lists/drag-drop-lists.component.ts:56-82 | each of the three branches gives its specified result (reorder, single transfer, multi-item move); both selections end empty; the panels' combined multiset of items is conserved; the invariant is kept |
| DragDropLists.DragDropListsComponent.IsSingleItemDrag | src/app/drag-drop-lists/drag-drop-lists.component.ts:87-94 | a drag is single exactly when the dragged item is not in the source side's selection (the emptiness test is subsumed) |
| DragDropLists.DragDropListsComponent.HandleMultiItemDrag | src/app/drag-drop-lists/drag-drop-lists.component.ts:99-133 | an unselected dragged item is transferred alone; otherwise the panels become `MultiMoved` of the old panels; the selections are untouched |
| DragDropLists.DragDropListsComponent.SpliceSelected | src/app/drag-drop-lists/drag-drop-lists.component.ts:121-132 | the loop leaves the source without the items at the listed indices and the target with those items inserted one per round |
| DragDropLists.DragDropListsComponent.SpliceRound | src/app/drag-drop-lists/drag-drop-lists.component.ts:122-131 | one round of the loop, splicing the item at the adjusted index out of one panel and into the other, advances the loop invariant by one round |
| DragDropLists.DragDropListsComponent.ToggleSelect | src/app/drag-drop-lists/drag-drop-lists.component.ts:138-154 | the side's selection becomes `Toggled`; the other selection and both panels are unchanged; with unique selections, uniqueness is kept and `isSelected` flips; the invariant is kept for an item of that panel |
| DragDropLists.DragDropListsComponent.IsSelected | src/app/drag-drop-lists/drag-drop-lists.component.ts:159-165 | an item is selected exactly when the `findIndex` lookup of `toggleSelect` finds its id |
| DragDropLists.DragDropListsComponent.HasSelectedItems | src/app/drag-drop-lists/drag-drop-lists.component.ts:170-174 | a side has selected items exactly when some item is selected there |
| DragDropLists.DragDropListsComponent.MoveSelectedToRight | src/app/drag-drop-lists/drag-drop-lists.component.ts:179-192 | with an empty left selection nothing changes; otherwise the right panel is the old one followed by the selection, the left panel is filtered in order, and both selections are empty; the ids of the two panels are conserved and the invariant is kept |
| DragDropLists.DragDropListsComponent.MoveSelectedToLeft | src/app/drag-drop-lists/drag-drop-lists.component.ts:197-210 | the mirror image of `MoveSelectedToRight` |
| DragDropLists.DragDropListsComponent.ClearSelections | src/app/drag-drop-lists/drag-drop-lists.component.ts:215-218 | both selections become empty, the panels are untouched, and the invariant is kept |

The component's invariant, `Consistent`, has three parts:

- no id occurs twice across the two panels;
- no selection repeats an id;
- every selected id is the id of an item of that selection's own panel.

The code never checks this invariant: `toggleSelect` accepts any item.
The model therefore states, method by method, what each one proves about it:

- the constructor establishes it (all four lists are empty);
- `OnInit` establishes it only when both selections are empty, because a
  selection made before `ngOnInit` need not name items of the sample panels;
- `Drop`, `MoveSelectedToRight`, `MoveSelectedToLeft` and `ClearSelections`
  keep it: `old(Consistent()) ==> Consistent()`;
- `ToggleSelect` keeps "no selection repeats an id" for every item, and keeps
  the whole invariant only when the toggled item's id is in that side's panel
  (`old(Consistent()) && HasId(Panel(side), item.id) ==> Consistent()`);
- `HandleMultiItemDrag`, `SpliceSelected` and `SpliceRound` are steps of `Drop`
  and state no invariant of their own; `Drop` states it for the whole gesture.

`Drop` requires that neither selection repeats an id (`SelectionsUnique()`),
and `HandleMultiItemDrag` requires it of the source side's selection
(`UniqueIds(Selected(from))`); see "Left out".

Multi-item drags:

- A multi-item drag does not keep the moved items in source order. Item `i`
  goes to `currentIndex - i` when `currentIndex > previousIndex`, and to
  `currentIndex` otherwise.
  - In the second case the moved items form one block in reverse source order
    (`MultiMovedReversed`). For example, dragging item 1 of a left panel
    `[1, 2, 3]`, with 1 and 3 selected, to index 0 of an empty right panel
    leaves `[2]` on the left and gives `[3, 1]` on the right (`BackwardDropReverses`).
  - In the first case the moved items can be interleaved with target items.
  - For both cases the model proves conservation (`MultiMovedConserves`).
  - When no target item's id is selected, the target's own items keep their
    order (`MultiMovedKeepsTarget`). The invariant guarantees that condition
    for every drop (`TargetUnselected`).
- `currentIndex - i` can be negative. JavaScript's `splice` then counts
  back from the end of the array. `SpliceStart` models that rule, so no
  precondition excludes that input.
- The fallback at lines 105-113 (dragged item not selected) cannot be reached
  from `drop`. It is still modelled in `HandleMultiItemDrag`.

## Left out

- Angular scaffolding (the decorator, imports, template and styles, lines 1-26) is framework wiring with no behaviour to model.
- Identifying the source panel by the container id `'cdk-drop-list-0'` is replaced by a `Side` argument. The aliasing of `event.container.data` to the panel fields is replaced by reading and writing the field of that side.
- The internals of the CDK's `moveItemInArray` and `transferArrayItem` are not part of this model. They are given contracts with in-range indices, so any clamping they do on out-of-range indices is not modelled.
- DragDropLists.DragDropListsComponent.Drop: requires the indices the CDK reports to be in range (`previousIndex` in the source, `currentIndex` in the target). The CDK guarantees this; the model does not derive it.
- DragDropLists.DragDropListsComponent.Drop: requires neither selection to repeat an id. `toggleSelect` and `clearSelections` keep this (`ToggleKeepsUnique`). With a repeated id the sorted indices repeat, and the shifted index `selectedIndices[i] - i` can then fall below 0. For indices `[0, 0]`, the second round reads `data[-1]`, which is `undefined`; `splice(-1, 1)` then removes the source's last item, and `undefined` is inserted into the target. That behaviour is not modelled.
- DragDropLists.DragDropListsComponent.HandleMultiItemDrag: has the same two requirements as `Drop`.
- `includes` compares objects by reference. The model compares items as values: two items with equal id and name are the same item. With unique ids the two agree.
- Item names are uninterpreted strings.
- `hasSelectedItems` and `isSelected` are pure queries over the state, so they are class functions rather than methods.
- Shared array objects are not modelled. The model works on the values of the lists: a method changes a panel by assigning that panel's field.
- `Item.id` is modelled as an unbounded integer. In the source it is a JavaScript `number`, so fractional ids and `NaN` are not modelled. A `NaN` id is never `===` to itself, so `findIndex` never finds it, and `toggleSelect` would push such an item again rather than deselect it.
