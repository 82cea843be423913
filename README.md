# Outliner tree engine, modelled in Dafny

This project models the tree-state engine of a keyboard-driven outliner and
proves properties of it. An outline is a tree of titled items. Each item has
an `isOpen` flag, an ordered list of children and a link to its parent. The
repository holds three generations of the engine, and each one is modelled
with its own behaviour:

- **Tree store and navigator** (`src/core/tree.ts`, module `Tree`).
  - Items are ids (`Id = int`). The value `Forest` holds four maps: `children`, `parent`, `isOpen` and `title`.
  - `Forest.Valid()` says the maps agree and the parent links have no cycle. A ghost `Rank` gives every item a level, and that level serves as the termination measure of every walk.
  - The class `Store` holds the same four maps as fields. Its methods `AddChildAt`, `RemoveChildAt`, `RemoveChild` and `UpdateIsOpenFlag` change them in place. Each method is specified by a pure function on `Forest`.
  - The navigation queries are functions, and the two `while` loops are methods. JavaScript's `splice`, `filter` and `indexOf` are modelled in module `Arrays`, including their index clamping.
- **Structural moves** (`src/core/app.movement.ts`, module `Movement`). `moveItemUp`, `moveItemDown`, `moveItemRight` and `moveItemLeft` are methods on a `Store`. Each is specified by a function on `Forest`, with lemmas about validity, the exact new shape, and round trips.
- **Layout and view reconciliation** (`src/core/app.layout.ts`, module `Layout`).
  - The pre-order walk `traverseItems` is the function `Traverse`. It returns the sequence of callback calls, as `Placement(item, gridX, gridY)`.
  - `syncViews` is a method of the class `ViewMap`. It keeps the views in a `map` field that it updates in place.
- **Command history** (`src/core/commands.ts`, module `Commands`). The class `App` holds the document, the `undoQueue` and `currentHistoryIndex`. Dispatch, undo and redo are methods, each specified by a function on the value `Session`.
- **Earlier engines**.
  - `src/core/app.ts` is module `CoreApp`. Its views are a map.
  - `src/app.ts` is module `FirstApp`. Its views are an array.
  - Both share `mapPartialItem` (module `PartialItems`), built from the fragments of module `Fragments`. Each call hands out fresh ids in pre-order.
- **Local search** (`src/ui/leftSidebar/modal.text.ts`, module `Search`). It covers term splitting, substring matching, a breadth-first search with a result cap, highlight ranges, and splitting a row title into bold and plain parts.
- **Themes** (`src/core/themes.ts`, module `Themes`). The class `Themes` holds `currentTheme` and `theme`, and the method `RotateTheme` steps from one theme to the next.

`Wrappers` holds `Option`, `Result` and the failures the source can raise:
- reading the index of an item without a parent;
- dereferencing an undefined child;
- reading the last highlight of an empty list.

## Model

| member | source | states |
|---|---|---|
| Arrays.Without | src/core/tree.ts:17 | `filter(c => c !== item)`: every copy of the item dropped and the rest kept in order; what it keeps is stated by `Arrays.WithoutCounts` and `Arrays.WithoutMembers` |
| Arrays.SpliceStart | src/core/tree.ts:12 | where `splice` starts: a negative index counts from the end, and any index is clamped into the array |
| Arrays.RemoveAt | src/core/tree.ts:12 | `splice(index, 1)` drops exactly the element at an in-range index, and one element for a negative index counted from the end |
| Arrays.InsertAt | src/core/tree.ts:22 | `splice(index, 0, x)` puts `x` at the clamped index, with everything before and after it unchanged |
| Arrays.Truncate | src/core/commands.ts:172 | `splice(k)` keeps exactly the first `k` entries |
| Arrays.WithoutCounts | src/core/tree.ts:17 | `filter(c => c !== item)` removes every copy of the item and keeps every other element, counted with multiplicity |
| Arrays.WithoutMembers | src/core/tree.ts:17 | after the filter, an element is present iff it was present before and is not the item |
| Arrays.InsertAtCounts | src/core/tree.ts:22 | the insertion adds exactly one copy of the item |
| Arrays.IndexOf | src/core/tree.ts:43 | `indexOf` returns -1 iff the element is absent, and otherwise a position holding it |
| Arrays.IndexOfFirst | src/core/tree.ts:43 | `indexOf` returns the first occurrence |
| Arrays.WithoutSingle | src/core/tree.ts:11-19 | on a list without duplicates, filtering an item out equals splicing it out at its position |
| Arrays.ReinsertEarlier | src/core/app.movement.ts:32-33 | removing at `k` and reinserting at `k-1` swaps the item with its previous sibling |
| Arrays.ReinsertLater | src/core/app.movement.ts:43-44 | removing at `k` and reinserting at `k+1` swaps the item with its next sibling; the last element stays last |
| Tree.IsRoot | src/core/tree.ts:34 | `isRoot`: an item is a root exactly when it has no parent |
| Tree.OpenFlagUpdated | src/core/tree.ts:7-9 | `updateIsOpenFlag`: the item's `isOpen` becomes "has children" and nothing else changes; `Tree.Store.UpdateIsOpenFlag` is specified by it |
| Tree.ChildRemovedAt | src/core/tree.ts:11-14 | `removeChildAt`: `splice(index, 1)` on the parent's children, then `updateIsOpenFlag`; `Tree.RemoveChildAtEffect` states the result |
| Tree.ChildRemoved | src/core/tree.ts:16-19 | `removeChild`: the parent's children filtered, then `updateIsOpenFlag`; `Tree.RemoveChildEffect` states the result |
| Tree.ChildAddedAt | src/core/tree.ts:21-25 | `addChildAt`: `splice(index, 0, item)` on the parent's children, the item's `parent` set, then `updateIsOpenFlag`; `Tree.AddChildAtEffect` states the result |
| Tree.Following | src/core/tree.ts:85-95 | the reference meaning of `getFollowingItem`: the next sibling, else the next sibling of the nearest ancestor that has one, else nothing; `Tree.GetFollowingItem` proves the loop computes it and `Tree.FollowingAt` and `Tree.FollowingOutsideSubtree` state its value |
| Tree.ItemBelow | src/core/tree.ts:65-68 | `getItemBelow`: the first child of an open item with children or of the focused item (nothing when the focused item has no children, where `children[0]` is `undefined`), otherwise `Tree.Following`; `Tree.ItemBelowStep` and `Layout.LayoutItemBelow` state what it finds |
| Tree.ItemAbove | src/core/tree.ts:70-83 | `getItemAbove`: the last nested item of the previous sibling, entered through its last child when it is open; the parent of a first child unless the parent is the root; an error where an open previous sibling without children makes the source read `children[-1]`; `Tree.ItemAboveLater` and `Tree.ItemAboveFirst` state what it finds |
| Tree.GetItemIndex | src/core/tree.ts:38-44 | fails exactly for an item without a parent; otherwise gives the `indexOf` result, which is the item's own position when every item is among its parent's children |
| Tree.FollowingSibling | src/core/tree.ts:97-109 | a sibling found is a child of the item's parent |
| Tree.FollowingSiblingAt | src/core/tree.ts:97-109 | for the item at position `k`, the next sibling is the entry at `k+1`, or nothing past the end |
| Tree.IsOneOfTheParents | src/core/tree.ts:56-63 | the loop answers true iff following parent links from the item (itself included) reaches the given item |
| Tree.InSubtreeLevel | src/core/tree.ts:56-63 | an item reached by the parent walk lies at a strictly lower level, unless it is the item itself |
| Tree.InSubtreeStep | src/core/tree.ts:56-63 | whatever lies below a child also lies below its parent |
| Tree.InSubtreeTrans | src/core/tree.ts:56-63 | the ancestor relation is transitive |
| Tree.AncestorsOrdered | src/core/tree.ts:56-63 | of two ancestors of one item, one is an ancestor of the other |
| Tree.SiblingsApart | src/core/tree.ts:56-63 | of two children of one item, neither lies below the other unless they are the same |
| Tree.NotBelowLower | src/core/tree.ts:56-63 | an item never lies below an item of the same or a deeper level |
| Tree.InSubtreeSameParents | src/core/tree.ts:56-63 | the relation depends only on the parent links |
| Tree.FollowingAt | src/core/tree.ts:85-109 | the following item of the child at position `k` is the next child, or, after the last child, what follows the parent |
| Tree.GetFollowingItem | src/core/tree.ts:85-95 | the while loop returns the next sibling, else the next sibling of the nearest ancestor that has one, else nothing once the climb passes the root |
| Tree.FollowingOutsideSubtree | src/core/tree.ts:85-95 | the following item is never inside the item's own subtree, and its parent is an ancestor of the item |
| Tree.ItemBelowStep | src/core/tree.ts:65-68 | the item below is the first child of an item that is open with children or focused; otherwise it is an item outside the item's subtree |
| Tree.LastNestedItem | src/core/tree.ts:111-117 | when the descent succeeds, it ends on a closed item inside the start item's subtree |
| Tree.LastNestedItemOk | src/core/tree.ts:111-117 | where every item is open exactly when it has children, the descent never fails |
| Tree.ItemAboveLater | src/core/tree.ts:70-83 | for a later child, the item above is a closed item inside the previous sibling's subtree, unless the descent fails |
| Tree.ItemAboveFirst | src/core/tree.ts:70-83 | for a first child, the item above is its parent, or nothing when the parent is the root |
| Tree.DescendantsOf | src/core/tree.ts:46-54 | every item the walk calls back with lies strictly below the walked item |
| Tree.Descendants | src/core/tree.ts:46-54 | `forEachChild` calls back only with items strictly below the item |
| Tree.DescendantsOfHas | src/core/tree.ts:47-49 | every child in the walked run is called back |
| Tree.DescendantsOfClosed | src/core/tree.ts:48-50 | a child of an item called back is called back too |
| Tree.DescendantsComplete | src/core/tree.ts:46-54 | on a table where every item is among its parent's children, every item strictly below the item is called back, so with `Tree.Descendants` the call-backs are exactly the items below |
| Tree.AddChildAtEffect | src/core/tree.ts:21-25 | the item sits at the index, the other children keep their order, its parent is the new parent, the parent is open; every other item keeps its parent link, children and open flag, and titles are unchanged |
| Tree.RemoveChildAtEffect | src/core/tree.ts:11-14 | exactly the entry at the index goes, `isOpen` becomes "more than one child before", and parents, titles, the other children lists and the other open flags are unchanged |
| Tree.RemoveChildEffect | src/core/tree.ts:16-19 | every copy of the item goes and the rest stay; `isOpen` is re-derived; the item's `parent` link is not cleared; titles, the other children lists and the other open flags are unchanged |
| Tree.RemoveChildIsRemoveChildAt | src/core/tree.ts:11-19 | on a consistent table, removing by identity equals removing at the item's index |
| Tree.RemoveChildAtValid | src/core/tree.ts:11-14 | `removeChildAt` at any index keeps the table consistent and free of cycles |
| Tree.RemoveChildAtDetaches | src/core/tree.ts:11-14 | after removal at its position, the item is in no children list |
| Tree.RemoveChildValid | src/core/tree.ts:16-19 | `removeChild` keeps the table valid and leaves the item in no children list |
| Tree.AddChildAtWellFormed | src/core/tree.ts:21-25 | attaching a detached item keeps parent and children links in agreement |
| Tree.AddChildAtValid | src/core/tree.ts:21-25 | attaching a detached item under a parent outside its own subtree keeps the table free of cycles |
| Tree.RemoveChildAtAttached | src/core/tree.ts:11-14 | every item other than the removed one is still among its parent's children |
| Tree.RemoveChildAttached | src/core/tree.ts:16-19 | the same holds after removal by identity |
| Tree.AddChildAtAttached | src/core/tree.ts:21-25 | re-attaching the one detached item makes every item attached again |
| Tree.Store.UpdateIsOpenFlag | src/core/tree.ts:7-9 | the item's open flag becomes "has children" |
| Tree.Store.RemoveChildAt | src/core/tree.ts:11-14 | the fields hold `ChildRemovedAt` of their old value |
| Tree.Store.RemoveChild | src/core/tree.ts:16-19 | the fields hold `ChildRemoved` of their old value |
| Tree.Store.AddChildAt | src/core/tree.ts:21-25 | the fields hold `ChildAddedAt` of their old value |
| Movement.CanItemBeMoved | src/core/app.movement.ts:49 | `canItemBeMoved`: every item but the focused one may move |
| Movement.CanItemBeMovedLeft | src/core/app.movement.ts:51-52 | `canItemBeMovedLeft`: a movable item that has a parent |
| Movement.MovedUp | src/core/app.movement.ts:27-36 | a move keeps the set of items and the titles; the focused item, and an item without a parent, is not moved |
| Movement.MovedDown | src/core/app.movement.ts:38-47 | the same for a move down |
| Movement.MovedRight | src/core/app.movement.ts:3-13 | the same for a move right |
| Movement.MovedLeft | src/core/app.movement.ts:15-25 | the same for a move left |
| Movement.MoveItemUp | src/core/app.movement.ts:27-36 | the store afterwards holds `MovedUp` of its old value |
| Movement.MoveItemDown | src/core/app.movement.ts:38-47 | the store afterwards holds `MovedDown` of its old value |
| Movement.MoveItemRight | src/core/app.movement.ts:3-13 | the store afterwards holds `MovedRight` of its old value |
| Movement.MoveItemLeft | src/core/app.movement.ts:15-25 | the store afterwards holds `MovedLeft` of its old value |
| Movement.MovedUpValid | src/core/app.movement.ts:27-36 | moving up keeps the table valid, and keeps every item among its parent's children |
| Movement.MovedDownValid | src/core/app.movement.ts:38-47 | moving down keeps the table valid |
| Movement.MovedDownAttached | src/core/app.movement.ts:38-47 | moving down keeps every item among its parent's children |
| Movement.MovedRightValid | src/core/app.movement.ts:3-13 | moving right keeps the table valid and attached |
| Movement.MovedLeftValid | src/core/app.movement.ts:15-25 | moving left keeps the table valid and attached |
| Movement.ReinsertValid | src/core/app.movement.ts:61-75 | removing a child at its index and inserting it under any item outside its subtree keeps the table valid |
| Movement.FilteredReinsertValid | src/core/app.movement.ts:66-75 | removing by identity and re-inserting outside its own subtree keeps the table valid |
| Movement.FilteredReinsertAttached | src/core/app.movement.ts:66-75 | removing by identity and re-inserting keeps every item attached |
| Movement.MovedUpShape | src/core/app.movement.ts:27-36 | at index 0 nothing changes; otherwise the item swaps with its previous sibling, parents are unchanged, and the parent is open |
| Movement.MovedDownShape | src/core/app.movement.ts:38-47 | the item swaps with its next sibling; the last child stays where it is; the parent is marked open |
| Movement.MovedRightShape | src/core/app.movement.ts:3-13 | a first child stays; otherwise the item becomes the last child of its previous sibling, which becomes its parent and is open |
| Movement.MovedLeftShape | src/core/app.movement.ts:15-25 | under the root nothing changes; otherwise the item goes right after its former parent in the grandparent, which becomes its parent |
| Movement.UpThenDown | src/core/app.movement.ts:27-47 | moving a later child up and then down restores the table, apart from the parent's open flag |
| Movement.RightThenLeft | src/core/app.movement.ts:3-25 | moving a later child right and then left restores the table, apart from the two open flags |
| Layout.HasVisibleChildren | src/core/app.layout.ts:59-60 | `hasVisibleChildren`: an open item with children, or the focused item whatever its children |
| Layout.Traverse | src/core/app.layout.ts:39-57 | `traverseItems` as the sequence of its callback calls: each item at (`gridX`, row), then the walk of its visible children; the returned height is the length (`Layout.TraverseRows`) and the shape is `Layout.TraverseShape` |
| Layout.Below | src/core/app.layout.ts:53-55 | the nested `traverseItems` call for one item: its children one column right from the next row when they are visible, otherwise nothing |
| Layout.Layout | src/core/app.layout.ts:30-37 | `layout`: the root's children from column 0, row 0, or a non-root focused item alone at column -1, row 0; `Layout.LayoutFromRoot`, `Layout.LayoutFocused` and `Layout.LayoutItemBelow` state its shape |
| Layout.FontSize | src/core/app.layout.ts:118-123 | `getFontSize`: the title size at column -1, the first-level size at column 0, the body size elsewhere; `Layout.LayoutFontSizes` ties it to the layout |
| Layout.TextColor | src/core/app.layout.ts:125-130 | `getTextColor`: the selected colour for a selected item, else the first-level colour at columns -1 and 0, else the body colour |
| Layout.CircleColor | src/core/app.layout.ts:132-133 | `getCircleColor`: the selected colour for a selected item, otherwise the filled-circle colour |
| Layout.XCoordinate | src/core/app.layout.ts:135 | `calcXCoordiante`: the column times the grid size |
| Layout.YCoordinate | src/core/app.layout.ts:137-142 | `calcYCoordiante`: the row times the grid size, plus the title offset for the focused item |
| Layout.TraverseRows | src/core/app.layout.ts:39-57 | the calls' rows run `gridY, gridY+1, …` with no gap, so the returned height is their count |
| Layout.TraverseColumns | src/core/app.layout.ts:39-57 | no call lies left of the start column, and the first call is the first item at the start cell |
| Layout.TraverseRoots | src/core/app.layout.ts:39-57 | the calls at the start column are exactly the given items, in order |
| Layout.TraverseSteps | src/core/app.layout.ts:46-60 | each call is followed by its first child one column right exactly when it has visible children (open and non-empty, or focused), and by an item no further right otherwise |
| Layout.FollowsStep | src/core/app.layout.ts:46-57 | a child, the walk below it and the walk of the later children keep "first child below an expanding item, following item below any other", and the last row hands over to what follows the parent |
| Layout.TraverseFollows | src/core/app.layout.ts:46-60 | in the walk of an item's children, the row below an item that expands is its first child and the row below any other item is its following item (`getFollowingItem`); the last row's following item is the parent's |
| Layout.BelowFollows | src/core/app.layout.ts:53-55 | the walk below an item is empty exactly when the item does not expand, starts with its first child, and keeps the same rule |
| Layout.TraverseShape | src/core/app.layout.ts:39-60 | rows, columns, roots and parent–child steps together |
| Layout.TraverseWithin | src/core/app.layout.ts:39-57 | every placed item lies below the item whose children are walked |
| Layout.TraverseDistinct | src/core/app.layout.ts:39-57 | no item is placed twice |
| Layout.LayoutFromRoot | src/core/app.layout.ts:30-37 | from the root, its children sit at column 0 from row 0, with consecutive rows |
| Layout.LayoutFocused | src/core/app.layout.ts:30-37 | from a non-root focus, the focused item sits alone at (-1, 0), and its children, shown even when it is closed, follow from row 1 at column 0 |
| Layout.LayoutFromFocus | src/core/app.layout.ts:30-37 | the same as rows, columns and steps |
| Layout.LayoutDistinct | src/core/app.layout.ts:30-57 | the layout never places an item twice |
| Layout.LayoutItemBelow | src/core/tree.ts:65-68 | for every row of the layout but the last, `getItemBelow` of its item is the item of the next row, so moving down follows the rows |
| Layout.LayoutFontSizes | src/core/app.layout.ts:118-130 | in the layout the title font size goes to the focused item alone, the first-level size to exactly its children, and the first-level text colour of an unselected row to exactly those items |
| Layout.AtColumnHas | src/core/app.layout.ts:39-57 | an item placed at a column is among that column's items |
| Layout.AtColumnFrom | src/core/app.layout.ts:39-57 | every item of a column is placed at that column |
| Layout.CreateView | src/core/app.layout.ts:76-98 | the view carries its cell and item, and its text and circle colour are `selected` exactly for the selected item |
| Layout.UpdateView | src/core/app.layout.ts:100-116 | updating a view in place gives exactly the view `createView` would make at the new cell |
| Layout.ReconciledViews | src/core/app.layout.ts:5-26 | after syncing, the views are keyed exactly by the laid-out items, each filed under its item, each with the view of its cell |
| Layout.PlacedKeys | src/core/app.layout.ts:7-20 | the enter and move pass adds exactly the placed items to the keys |
| Layout.ViewMap.SyncViews | src/core/app.layout.ts:5-26 | the views become `Reconciled(...)`, which does not depend on the old views, so a second sync changes nothing |
| Layout.ViewMap.Mark | src/core/app.layout.ts:7-20 | each placed item's view is updated or created, and the marked set is exactly the placed items |
| Layout.ViewMap.Sweep | src/core/app.layout.ts:22-25 | exactly the unmarked views are deleted |
| Commands.AddChildAt | src/core/commands.ts:113 | `addChildAt` on the document's table (`Tree.ChildAddedAt`); a parent that is not an item leaves the document unchanged |
| Commands.Retitled | src/core/commands.ts:58-64 | `doRename` and `undoRename`: the item's title becomes the given name; `Commands.RenameRoundTrip` relates the two |
| Commands.Handle | src/core/commands.ts:127-135 | `handleCommand`: remove, create and move go to the `removeItem`, `createItemNearSelected` and `moveSelectedItem` handlers; a rename sets the new title |
| Commands.HandleUndo | src/core/commands.ts:137-145 | `handleUndoCommand`: re-insert a removed item at its index and select it; remove a created item and restore the selection; restore the old title; remove a moved item and re-insert it at its recorded place; `Commands.UndoRemoveRestores`, `Commands.DispatchThenUndoCreate`, `Commands.RenameRoundTrip` and `Commands.UndoMoveReturns` state the results |
| Commands.RemoveCommandFor | src/core/commands.ts:23-28 | fails exactly for an item without a parent; otherwise records the item and its position among its parent's children |
| Commands.RenameCommandFor | src/core/commands.ts:50-56 | records the new name and an old name that, written back, gives the same document |
| Commands.ChangeSelection | src/core/app.ts:132-140 | the table is kept; `undefined` changes nothing; an item with a view becomes the selection; the selection changes only to such an item |
| Commands.CreateCommandFor | src/core/commands.ts:77-83 | records the new item as `mapPartialItem("")` makes it (empty title, no children, closed, on its own), the position, and the previously selected item |
| Commands.MoveCommandFor | src/core/commands.ts:97-109 | records nothing when there is no selection or it has no parent; otherwise records the selected item, the direction, its current parent and, on an attached table, its index there |
| Commands.Initial | src/core/commands.ts:157-160 | an empty queue with the pointer at -1, which is in range |
| Commands.Dispatched | src/core/commands.ts:168-175 | applies the command, truncates the queue after the pointer, appends the command, and leaves the pointer on it, in range |
| Commands.Undone | src/core/commands.ts:177-186 | at -1 nothing changes; otherwise the inverse of the command at the pointer is applied and the pointer steps back; the queue is kept |
| Commands.Redone | src/core/commands.ts:188-195 | at the last command nothing changes; otherwise the pointer steps on and that command is applied again |
| Commands.RedoAfterDispatch | src/core/commands.ts:168-195 | right after a dispatch the redo tail is gone and `redo` changes nothing |
| Commands.RenameRoundTrip | src/core/commands.ts:50-64 | rename sets the new title, its undo restores the document exactly, and redo sets it again |
| Commands.DispatchThenUndoRename | src/core/commands.ts:168-186 | dispatching a rename and undoing it restores the document and the pointer, and redo re-applies it |
| Commands.UndoRemoveRestores | src/core/commands.ts:30-37 | undoing the removal of the item at index `k` restores the tree exactly, apart from marking the parent open; the item becomes the selection when it has a view, and otherwise the selection stays |
| Commands.DispatchThenUndoCreate | src/core/commands.ts:137-145 | dispatching a create and undoing it puts the pointer back, leaves the table `removeItem` makes after the create, selects the previously selected item again when it has a view and otherwise leaves the document `removeItem` made; redo applies the create again |
| Commands.UndoMoveReinserts | src/core/commands.ts:111-114 | undoing a move inserts the item back at its recorded index under its recorded parent |
| Commands.UndoMoveReturns | src/core/commands.ts:97-114 | when `removeItem` leaves the old parent's children as they were, less the item, undoing a move restores the old parent's children exactly and the item's parent link |
| Commands.App.constructor | src/core/commands.ts:157-160 | a new app starts with `initialUndoState` |
| Commands.App.DispatchCommand | src/core/commands.ts:168-175 | the fields hold `Dispatched` of their old value |
| Commands.App.Undo | src/core/commands.ts:177-186 | the fields hold `Undone` of their old value |
| Commands.App.Redo | src/core/commands.ts:188-195 | the fields hold `Redone` of their old value |
| Commands.App.RemoveItemCommand | src/core/commands.ts:23-28 | fails, changing nothing, for an item without a parent; otherwise dispatches the remove record |
| Commands.App.RenameItemCommand | src/core/commands.ts:50-56 | dispatches the rename record |
| Commands.App.CreateItemCommand | src/core/commands.ts:77-83 | dispatches the create record |
| Commands.App.MoveSelectedItemCommand | src/core/commands.ts:97-109 | dispatches nothing without a selection or parent; otherwise dispatches the move record |
| PartialItems.OpenFlag | src/core/app.ts:24-37 | the `isOpen` an item gets: closed for a string; a record's own flag, else "has children" (src/app.ts: always open) |
| PartialItems.TitleOf | src/core/app.ts:24-37 | the `title` an item gets: the string itself, or the record's title with `""` as default |
| PartialItems.Mapped | src/core/app.ts:23-41 | the items `mapPartialItem` makes from one description, with fresh ids in pre-order; `PartialItems.MappedRooted` and `PartialItems.MapPartialItem` state their shape |
| PartialItems.MapPartialItem | src/core/app.ts:23-41 | the result is a valid table rooted at the new item; a string gives a childless item; a record keeps one child per description; every child's parent is the new item; the open flag follows the generation's rule |
| PartialItems.MappedRooted | src/core/app.ts:23-41 | one description makes a consistent fragment of fresh ids rooted at its first id |
| PartialItems.MappedAllTopped | src/core/app.ts:31 | `children.map(mapPartialItem)` makes side-by-side fragments whose top items are the children |
| Fragments.Reparented | src/core/app.ts:38 | `res.children.forEach((c) => (c.parent = res))`: each listed child's parent set in turn; `Fragments.ReparentedSpec` states the result |
| Fragments.ReparentedSpec | src/core/app.ts:38 | the `forEach` sets the parent of exactly the listed children to the new item and leaves every other link |
| Fragments.AdoptFragment | src/core/app.ts:30-39 | a new item that adopts the top items of a fragment makes a fragment rooted at it |
| CoreApp.LayoutRoot | src/core/app.ts:58-81 | `layoutRoot` with this generation's `traverseItems`, which descends only into open items with children: `Layout.Traverse` without a focused item; `CoreApp.LayoutRootShape` states its shape |
| CoreApp.Created | src/core/app.ts:49-51 | the views the `layoutRoot` callback of `createApp` sets, one per call, the later call winning; `CoreApp.CreatedKeys`, `CoreApp.CreatedCells` and `CoreApp.CreatedEach` state them |
| CoreApp.AppItemBelow | src/core/app.ts:155-170 | this generation's `getItemBelow`: the first child of an open item with children, else `getFollowingItem`, whose board tests are constantly false; `CoreApp.AppItemBelowFound` states what it finds |
| CoreApp.AppItemAbove | src/core/app.ts:186-206 | this generation's `getItemAbove`, with its constantly false board branches dropped; `CoreApp.AppItemAboveSame` and `CoreApp.AppItemAboveFound` state what it finds |
| CoreApp.LayoutRootShape | src/core/app.ts:58-81 | the root's children sit at column 0 from row 0, rows are consecutive, and the walk descends exactly into open items with children |
| CoreApp.LayoutRootDistinct | src/core/app.ts:58-81 | no item is placed twice |
| CoreApp.FirstChildPlaced | src/core/app.ts:47-51 | the selected first child of the root is placed, so it gets a view |
| CoreApp.CreatedKeys | src/core/app.ts:49-51 | `createApp` makes views for exactly the placed items, each filed under its item, selected exactly for the selected item |
| CoreApp.CreatedCells | src/core/app.ts:49-51 | each view carries the cell of its item's last placement |
| CoreApp.CreatedEach | src/core/app.ts:49-51 | without repeats, each placement's item has exactly the view of that placement |
| CoreApp.CreateViews | src/core/app.ts:49-51 | the loop over the callback calls builds `Created(...)` |
| CoreApp.Regridded | src/core/app.ts:98-104 | re-rowing keeps the set of views |
| CoreApp.RegriddedKeeps | src/core/app.ts:98-104 | re-rowing changes only the cells of shown, placed items, never their item or selection flag |
| CoreApp.RegriddedCells | src/core/app.ts:98-104 | every shown, placed item's view gets its new cell |
| CoreApp.Revealed | src/core/app.ts:116-127 | the shown items always have views |
| CoreApp.RevealedShown | src/core/app.ts:116-127 | afterwards the shown items are the old ones plus the placed ones |
| CoreApp.RevealedKeeps | src/core/app.ts:116-127 | old views keep item and selection flag; new views belong to their item and are selected exactly for the selected item; unplaced views are unchanged |
| CoreApp.RevealedCells | src/core/app.ts:116-127 | every placed item's view has its new cell |
| CoreApp.Selection | src/core/app.ts:132-140 | changing the selection keeps the set of views |
| CoreApp.SelectionFlags | src/core/app.ts:132-140 | no target: no change; a target with a view: it alone is flagged and becomes selected; a target without a view: all flags cleared and the selection kept |
| CoreApp.AppItemBelowFound | src/core/app.ts:155-170 | the item below is the first child of an open item with children, else an item outside the item's subtree whose parent is its ancestor |
| CoreApp.AppItemAboveSame | src/core/app.ts:186-206 | this generation's `getItemAbove`, with its dead board branches, finds what the newest one finds |
| CoreApp.AppItemAboveFound | src/core/app.ts:186-206 | the item above is a closed item in the previous sibling's subtree, or the parent of a first child |
| CoreApp.OpenFlagSet | src/core/app.ts:94 | flipping an open flag keeps the table valid and its children unchanged |
| CoreApp.App.constructor | src/core/app.ts:43-54 | the root is `mapPartialItem` of the items, its first child is selected, and each placed item gets its view |
| CoreApp.App.ChangeSelection | src/core/app.ts:132-140 | views and selection become `Selection(...)`; the tree is unchanged |
| CoreApp.App.MoveDown | src/core/app.ts:85-86 | selects the item below when there is one; otherwise nothing changes |
| CoreApp.App.MoveUp | src/core/app.ts:88-89 | selects the item above; fails, changing nothing, where the descent dereferences an undefined child |
| CoreApp.App.MoveLeft | src/core/app.ts:91-108 | closes an open selection, hides its descendants and re-rows the rest; on a closed one selects a non-root parent |
| CoreApp.App.Regrid | src/core/app.ts:98-104 | the views hold `Regridded(...)` |
| CoreApp.App.MoveRight | src/core/app.ts:110-130 | selects the first child of an open item with children; opens a closed item and reveals and re-rows the placed items |
| CoreApp.App.Reveal | src/core/app.ts:116-127 | the views and the shown set hold `Revealed(...)` |
| FirstApp.CreateViews | src/app.ts:48-54 | one view per placement, in order, selected exactly for the selected item, each item's `view` pointing at its own |
| FirstApp.Selection | src/app.ts:91-99 | changing the selection keeps the number of views |
| FirstApp.SelectionOne | src/app.ts:91-99 | no target: no change; a target with a view: exactly its view is flagged and it becomes selected; otherwise all flags cleared and the selection kept |
| FirstApp.App.constructor | src/app.ts:42-57 | the root is this generation's `mapPartialItem`, its first child is selected, and one view per placement is pushed |
| FirstApp.App.ChangeSelection | src/app.ts:91-99 | views and selection become `Selection(...)` |
| FirstApp.App.MoveDown | src/app.ts:88-89 | selects the item below when there is one; otherwise nothing changes |
| Search.Lower | src/ui/leftSidebar/modal.text.ts:45 | `toLocaleLowerCase`, character by character, with the length kept; `Search.LowerAt` and `Search.LowerIdempotent` state it |
| Search.Terms | src/ui/leftSidebar/modal.text.ts:44-47 | the search terms: the lowercased text split on spaces with empty pieces dropped; `Search.TermsWords` states what a term is |
| Search.IndexFrom | src/ui/leftSidebar/modal.text.ts:51 | `indexOf(t, i)` on strings: the first position from `i` where `t` occurs, or -1; `Search.IndexFromFirst` states it |
| Search.StringIndexOf | src/ui/leftSidebar/modal.text.ts:51 | `indexOf(t)` on strings, `IndexFrom` from 0; `Search.StringIndexOfFirst` states it |
| Search.Bfs | src/ui/leftSidebar/modal.text.ts:13-35 | the order in which items leave the queue of `traverseChildrenBFS`, with no cap; `Search.BfsCons`, `Search.BfsLevels`, `Search.BfsWithin`, `Search.BfsCovers` and `Search.BfsSubtree` state it |
| Search.Chosen | src/ui/leftSidebar/modal.text.ts:25-27 | the defined answers of `filterMap` along a walk, in order; `Search.ChosenFrom` and `Search.ChosenHas` state it |
| Search.Matcher | src/ui/leftSidebar/modal.text.ts:62 | the callback `findLocalItems` hands to the walk: `isMatchingTerms` over the current titles |
| Search.IsMatchingTerms | src/ui/leftSidebar/modal.text.ts:49-59 | `isMatchingTerms`: the item with its highlights when `indexOf` finds every term in its lowercased title, else nothing; `Search.IsMatchingIff` states it |
| Search.FoundTerms | src/ui/leftSidebar/modal.text.ts:68-74 | each term with the position `indexOf` finds it at in the lowercased title |
| Search.CreateTermsFound | src/ui/leftSidebar/modal.text.ts:67-77 | `createTermsFound`: the found terms sorted by position, then turned into highlights; `Search.TermsFoundOrdered`, `Search.TermsFoundInTitle` and `Search.TermsFoundCover` state the result |
| Search.Record | src/ui/leftSidebar/modal.text.ts:84-90 | one `forEach` step over the Map: a term is set at its position when the position has none or a shorter one, and a key set again keeps its place; `Search.RecordGrows` states it |
| Search.Entries | src/ui/leftSidebar/modal.text.ts:92-95 | `Array.from(foundsAt.entries()).map(...)`: one highlight per key, in insertion order, from the key to the key plus its term's length |
| Search.TitleHighlights | src/ui/leftSidebar/modal.text.ts:79-96 | `createTitleHighlightsFromFoundTerms` as a value; `Search.HighlightsLongest`, `Search.HighlightsCover` and `Search.HighlightsOrdered` state it |
| Search.PartsFrom | src/ui/leftSidebar/modal.text.ts:134-142 | the `map(...).flat()`: for each highlight, the plain text from the previous highlight's end, then its bold text; `Search.PartsCount`, `Search.PartsRebuild` and `Search.PartsBold` state it |
| Search.RowTitle | src/ui/leftSidebar/modal.text.ts:130-146 | the corrected row title: overlapping highlights cut at the previous end, and no highlight gives the whole title as one plain part; `Search.RowTitleRebuilds` and `Search.RowTitleAgrees` state it |
| Search.All | src/ui/leftSidebar/modal.text.ts:3-11 | the early-exit loop answers true iff the test holds for every element, and true for an empty array |
| Search.LowerAt | src/ui/leftSidebar/modal.text.ts:45 | lowercasing works character by character |
| Search.LowerIdempotent | src/ui/leftSidebar/modal.text.ts:45 | lowercasing twice is lowercasing once |
| Search.Split | src/ui/leftSidebar/modal.text.ts:46 | `split` gives at least one piece and no piece contains the separator |
| Search.JoinSplit | src/ui/leftSidebar/modal.text.ts:46 | joining the pieces with the separator gives back the string |
| Search.SplitJoin | src/ui/leftSidebar/modal.text.ts:46 | splitting a join of separator-free pieces gives back the pieces |
| Search.SplitChars | src/ui/leftSidebar/modal.text.ts:46 | every character of a piece occurs in the string |
| Search.NonEmpty | src/ui/leftSidebar/modal.text.ts:47 | `filter(x => x)` keeps only non-empty pieces of the input |
| Search.TermsWords | src/ui/leftSidebar/modal.text.ts:44-47 | every term is non-empty, has no space and is lowercase |
| Search.IndexFromFirst | src/ui/leftSidebar/modal.text.ts:51 | the search from a position finds the first occurrence from there, or -1 when there is none |
| Search.StringIndexOfFirst | src/ui/leftSidebar/modal.text.ts:51 | `indexOf` on strings gives the first occurrence, or -1 when there is none |
| Search.BfsCons | src/ui/leftSidebar/modal.text.ts:20-30 | one step dequeues the head and enqueues its children |
| Search.BfsLevels | src/ui/leftSidebar/modal.text.ts:20-30 | the whole queue is visited before the children it enqueues: breadth-first order |
| Search.BfsFrom | src/ui/leftSidebar/modal.text.ts:32-33 | the walk visits the start item first, then its children |
| Search.Take | src/ui/leftSidebar/modal.text.ts:23 | the cap keeps a prefix of at most `maxResults` results |
| Search.QueueStep | src/ui/leftSidebar/modal.text.ts:20-30 | one step of `traverse` keeps the invariant "results so far plus the results of the rest of the walk" |
| Search.TraverseChildrenBfs | src/ui/leftSidebar/modal.text.ts:13-35 | the results are the first `maxResults` values that `filterMap` gives along the breadth-first walk |
| Search.BfsWithin | src/ui/leftSidebar/modal.text.ts:13-35 | the walk visits only items below the queued ones |
| Search.BfsCovers | src/ui/leftSidebar/modal.text.ts:13-35 | the walk visits every item below every queued item |
| Search.BfsSubtree | src/ui/leftSidebar/modal.text.ts:13-35 | from one item the walk starts at it, stays in its subtree and visits every item `forEachChild` reaches, and so, on an attached table, every item of the subtree |
| Search.ChosenFrom | src/ui/leftSidebar/modal.text.ts:25-27 | every result comes from a visited item |
| Search.ChosenHas | src/ui/leftSidebar/modal.text.ts:25-27 | every visited item that `filterMap` accepts gives a result |
| Search.Insert | src/ui/leftSidebar/modal.text.ts:75 | insertion adds exactly the one entry |
| Search.InsertSorted | src/ui/leftSidebar/modal.text.ts:75 | insertion keeps the entries ordered by position |
| Search.SortByFoundAt | src/ui/leftSidebar/modal.text.ts:75 | the sort is a permutation ordered by `foundAt` |
| Search.Fold | src/ui/leftSidebar/modal.text.ts:82-90 | the map's keys in insertion order are exactly its key set |
| Search.RecordGrows | src/ui/leftSidebar/modal.text.ts:85-89 | one step keeps every key with a term no shorter, and keeps a term at least as long as the new entry at its position |
| Search.FoldWitness | src/ui/leftSidebar/modal.text.ts:84-90 | every kept term comes from an entry found at its key |
| Search.FoldLongest | src/ui/leftSidebar/modal.text.ts:84-90 | at each position the longest term found there is kept |
| Search.FoldDistinct | src/ui/leftSidebar/modal.text.ts:82-90 | no key is listed twice |
| Search.FoldAscending | src/ui/leftSidebar/modal.text.ts:84-90 | sorted entries give keys in ascending order |
| Search.HighlightsLongest | src/ui/leftSidebar/modal.text.ts:79-96 | each highlight runs from a found position for the length of the longest term found there |
| Search.HighlightsCover | src/ui/leftSidebar/modal.text.ts:79-96 | every found term's position starts a highlight |
| Search.HighlightFor | src/ui/leftSidebar/modal.text.ts:79-96 | a found term's highlight is at least as long as the term |
| Search.HighlightsOrdered | src/ui/leftSidebar/modal.text.ts:79-96 | at most one highlight per start, in ascending order when the entries are sorted |
| Search.CreateTitleHighlightsFromFoundTerms | src/ui/leftSidebar/modal.text.ts:79-96 | the forEach over a Map builds `TitleHighlights(ts)` |
| Search.TermsFoundOrdered | src/ui/leftSidebar/modal.text.ts:67-77 | the highlights of a title come out in strictly ascending `from` order |
| Search.TermsFoundInTitle | src/ui/leftSidebar/modal.text.ts:67-77 | when every term occurs, each highlight lies inside the title and spells a term of the lowercased title |
| Search.TermsFoundCover | src/ui/leftSidebar/modal.text.ts:67-77 | each term's first occurrence starts a highlight at least as long as the term |
| Search.IsMatchingIff | src/ui/leftSidebar/modal.text.ts:49-59 | an item matches iff every term occurs in its lowercased title, and a match carries the title's highlights |
| Search.FoundItems | src/ui/leftSidebar/modal.text.ts:61-64 | at most 25 entries, each a matching item of the subtree with its highlights; with fewer than 25, every matching item of the subtree (every one below it by parent links, on an attached table) is among them |
| Search.FindLocalItems | src/ui/leftSidebar/modal.text.ts:38-65 | the same for the search text, which is echoed back |
| Search.SliceIndex | src/ui/leftSidebar/modal.text.ts:138 | a `slice` index is clamped into the string and kept when in range |
| Search.Slice | src/ui/leftSidebar/modal.text.ts:138-139 | an in-range `slice` is the substring |
| Search.CreateRowTitleWithHighlightsFromTerms | src/ui/leftSidebar/modal.text.ts:130-146 | throws exactly when there is no highlight; otherwise gives two parts per highlight and a final part |
| Search.PartsCount | src/ui/leftSidebar/modal.text.ts:134-142 | the flattened map gives two parts per highlight |
| Search.PartsRebuild | src/ui/leftSidebar/modal.text.ts:134-142 | for ordered, non-overlapping highlights the parts spell the title from the start to the last highlight's end |
| Search.PartsBold | src/ui/leftSidebar/modal.text.ts:134-142 | the odd parts are the bold highlighted stretches, and the even ones are plain |
| Search.RowTitleApart | src/ui/leftSidebar/modal.text.ts:130-146 | for ordered, non-overlapping highlights the parts rebuild the title |
| Search.RowTitleBold | src/ui/leftSidebar/modal.text.ts:130-146 | the bold parts are exactly `title[from..to]` of each highlight, alternating with plain ones |
| Search.ClampedRebuild | src/ui/leftSidebar/modal.text.ts:134-142 | the corrected parts spell the title up to where the highlights reach, whatever their overlap |
| Search.RowTitleRebuilds | src/ui/leftSidebar/modal.text.ts:130-146 | the corrected row spells the title for any highlights inside it |
| Search.ClampedAgrees | src/ui/leftSidebar/modal.text.ts:134-142 | on non-overlapping highlights the corrected parts are the parts as written |
| Search.RowTitleAgrees | src/ui/leftSidebar/modal.text.ts:130-146 | the corrected row equals the row as written wherever that does not throw or overlap, and is the plain title with no highlight |
| Search.BlankSearchThrows | src/ui/leftSidebar/modal.text.ts:143-146 | blank search text gives no terms, every item matches with no highlights, and drawing its row throws |
| Search.OverlapHighlights | src/ui/leftSidebar/modal.text.ts:67-96 | "abc" searched for "ab bc" gives the overlapping highlights 0..2 and 1..3 |
| Search.OverlapRepeats | src/ui/leftSidebar/modal.text.ts:130-146 | on those highlights the row as written spells "abbc", the corrected one "abc" |
| Themes.Rotated | src/core/themes.ts:30-34 | the next index stays in range, wraps to 0 exactly from the last index, and is one on otherwise |
| Themes.RotatedTimes | src/core/themes.ts:30-34 | any number of rotations stays in range |
| Themes.RotatedTimesCompose | src/core/themes.ts:30-34 | `a` rotations then `b` more are `a+b` rotations |
| Themes.RotatedTimesAhead | src/core/themes.ts:30-34 | short of the last theme, `k` rotations move `k` places on |
| Themes.RotatedTimesWrap | src/core/themes.ts:30-34 | from index `i`, `n-i` rotations come back to the first theme |
| Themes.FullCycle | src/core/themes.ts:27-34 | as many rotations as there are themes restore the starting index |
| Themes.Themes.constructor | src/core/themes.ts:27-36 | the module starts at index 0 with the dark theme |
| Themes.Themes.RotateTheme | src/core/themes.ts:30-34 | the index moves on, wrapping to 0 past the last, stays in range, and `theme` is the theme at the index |
| Themes.RotateTwice | src/core/themes.ts:27-34 | with the two themes, one rotation gives the other theme and two rotations restore the starting index and theme |

## Left out

- Canvas drawing (`drawTextAt` and `drawLine` in src/ui/leftSidebar/modal.text.ts:99-175), DOM input, keyboard decoding, the sidebar glue and persistence are I/O and are not modelled.
- Object identity becomes ids. The items' `view` back-reference written by `createView` at src/core/app.layout.ts:96 is not modelled: the newest layout keeps only the `views` map.
- The module-level `markedSets` of src/core/app.layout.ts:4 is the set that `Layout.ViewMap.Mark` returns, local to one sync.
- Commands.Handle: `removeItem`, `createItemNearSelected` and `moveSelectedItem`, which src/core/commands.ts imports from `./app`, are not exported by src/core/app.ts as it stands and are not part of this model. They are parameters (`Commands.Handlers`), and the command lemmas hold for any such handlers.
- Commands.ChangeSelection: follows `changeSelection` of src/core/app.ts:132-140, the only one among the files modelled. Whether an item has a view is a parameter (`hasView`), because the documents of the command history carry no views, and the views' `isSelected` flags are left out.
- Commands.CreateCommandFor: the fresh item is the one `mapPartialItem("")` of src/core/app.ts makes (closed), and its id is a parameter, since ids stand for new objects.
- `assumeNever` (src/core/commands.ts:147-149) logs a command of unknown type. The command datatype has exactly four cases, so it is unreachable and left out.
- Search.Lower: lowercases `A`–`Z` only. `toLocaleLowerCase` also folds other letters according to the locale.
- Search.StringIndexOf, Search.SliceIndex, Search.Slice: positions count characters (Unicode scalar values). JavaScript's `indexOf` and `slice` count UTF-16 code units, so `from` and `to` differ for titles with characters outside the Basic Multilingual Plane.
- Tree.ItemAboveLater: states where the item above lies (a closed item in the previous sibling's subtree), not which one it is. `Tree.ItemAbove` is the exact definition.
- Tree.FollowingSibling: states only that a found sibling is a child of the parent. `Tree.FollowingSiblingAt` gives the exact result for an item at a known position.
- Search.Fold: its own ensures states only that the keys list and the key set agree. `FoldWitness`, `FoldLongest`, `FoldDistinct` and `FoldAscending` state the content.
- Search.SortByFoundAt: states the permutation and the order, not stability. The definition is stable all the same. It sorts the entries after the first one, then inserts the first one in front of every entry found at the same position. So entries found at one position keep their original order, as the stable `sort` of the language does, but no lemma states this.
- Layout: only the integer constants of src/core/spacings.ts are used. Colours are named by theme entry (`Selected`, `FirstLevelFont`, `Font`, `FilledCircle`), since the current theme supplies their values.
- Integers are unbounded. The source's numbers are doubles, but every value here is a small integer grid coordinate, index or length.
- Behaviours of the code that the model keeps as written:
  - `getLastNestedItem` (src/core/tree.ts:111-117) tests `item.children`. An array is always truthy, so an open item without children makes the descent dereference `children[-1]`, and the next step throws (`UndefinedItem`).
  - `getFollowingItem` (src/core/tree.ts:85-95) climbs to the true root and does not look at the focused item.
  - `addChildAt` and `removeChildAt` call `updateIsOpenFlag` on every call, so `isOpen` is re-derived from the child count each time.
  - `removeItemCommand` does not check for a parent before dispatch. `getItemIndex` throws instead, which the model returns as an error.
  - `changeSelection` in src/core/app.ts and src/app.ts checks only that the target has a view.

## Findings

| source | as written | input that shows it | evidently intended | confidence | as-written member | corrected member |
|---|---|---|---|---|---|---|
| src/ui/leftSidebar/modal.text.ts:143-146 | with no highlights, `highlights[highlights.length - 1].to` reads a field of `undefined` and throws | search text `"  "` (non-empty, so the sidebar searches): there are no terms, so every item matches with no highlights, and drawing its row throws | a row without highlights is the whole title as one plain part | not executed | Search.BlankSearchThrows | Search.RowTitleAgrees |
| src/ui/leftSidebar/modal.text.ts:136-139 | each highlight's bold part starts at its own `from`, even when that lies before the previous highlight's `to` | title `"abc"` searched for `"ab bc"`: the highlights are 0..2 and 1..3, and the parts spell `"abbc"` | the parts spell the title once, with overlapping highlights merged into the bold run | not executed | Search.OverlapRepeats | Search.RowTitleRebuilds |
