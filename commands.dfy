/**
 * The command history of the newest generation (src/core/commands.ts).  Every
 * edit is a command record that is applied and appended to a linear queue; a
 * pointer marks the last applied command.  Undo applies the inverse of the
 * command at the pointer and steps back, redo steps forward and applies the
 * command again, and a new command discards everything after the pointer.
 *
 * The app operations the handlers call but whose bodies are not part of this
 * model (`removeItem`, `createItemNearSelected` and `moveSelectedItem`) are
 * parameters: a `Handlers` value.  `changeSelection` is modelled after the one
 * of src/core/app.ts, with whether an item has a view as a parameter too.
 */
module Commands {
  import opened Wrappers
  import opened Arrays
  import opened Tree
  import Movement
  import PartialItems

  /** What the commands work on: the item table and the selected item. */
  datatype Doc = Doc(tree: Forest, selected: Option<Id>)

  /** `CreatePosition` */
  datatype CreatePosition = Before | After | Inside

  /** `MovingDirection`, as the key handler passes it. */
  datatype MovingDirection = Up | Down | Left | Right

  /** `Command`: the four command records, tagged by their `type`. */
  datatype Command =
    | RemoveSelectedItem(itemRemoved: Id, wasAtIndex: int)
    | CreateItem(item: Id, made: Forest, position: CreatePosition, previouslySelectedItem: Option<Id>)
    | RenameItem(item: Id, oldName: string, newName: string)
    | MoveItem(movingDirection: MovingDirection, item: Id, currentParent: Id, currentPosition: int)

  /** The app operations the handlers call, and whether an item currently has
      a view.  `createItemNearSelected` receives the new item's own fields
      (`made`) with its id. */
  datatype Handlers = Handlers(
    removeItem: (Doc, Id) -> Doc,
    createItemNearSelected: (Doc, Forest, Id, CreatePosition) -> Doc,
    moveSelectedItem: (Doc, Id, MovingDirection) -> Doc,
    hasView: (Doc, Id) -> bool)

  /** `changeSelection(app, item)`: nothing happens for `undefined`; an item
      with a view becomes the selected item; for an item without a view only
      the old view's `isSelected` flag is cleared, and view flags are not part
      of `Doc`. */
  function ChangeSelection(h: Handlers, d: Doc, item: Option<Id>): (r: Doc)
    ensures r.tree == d.tree
    ensures r.selected == item || r == d
    ensures r.selected != d.selected ==> item.Some? && h.hasView(d, item.value)
    ensures item.Some? && h.hasView(d, item.value) ==> r.selected == item
  {
    if item.None? then d
    else if h.hasView(d, item.value) then d.(selected := item)
    else d
  }

  /** `addChildAt` on the table of `d`.  Every parent the source can name is an
      item, so a parent outside the table leaves `d` as it is. */
  function AddChildAt(d: Doc, p: Id, item: Id, index: int): Doc
  {
    if p in d.tree.children then d.(tree := ChildAddedAt(d.tree, p, item, index)) else d
  }

  /** `item.title = name`, as `doRename` and `undoRename` do. */
  function Retitled(d: Doc, item: Id, name: string): Doc
  {
    d.(tree := d.tree.(title := d.tree.title[item := name]))
  }

  /** `handleCommand` */
  function Handle(h: Handlers, d: Doc, c: Command): Doc
  {
    match c
    case RemoveSelectedItem(item, _) => h.removeItem(d, item)
    case CreateItem(item, made, position, _) => h.createItemNearSelected(d, made, item, position)
    case RenameItem(item, _, newName) => Retitled(d, item, newName)
    case MoveItem(direction, item, _, _) => h.moveSelectedItem(d, item, direction)
  }

  /** `handleUndoCommand`, with `undoRemove` and `undoMove` inlined. */
  function HandleUndo(h: Handlers, d: Doc, c: Command): Doc
  {
    match c
    case RemoveSelectedItem(item, wasAtIndex) =>
      var back := if item in d.tree.parent then AddChildAt(d, d.tree.parent[item], item, wasAtIndex) else d;
      ChangeSelection(h, back, Some(item))
    case CreateItem(item, _, _, previouslySelected) =>
      ChangeSelection(h, h.removeItem(d, item), previouslySelected)
    case RenameItem(item, oldName, _) => Retitled(d, item, oldName)
    case MoveItem(_, item, p, k) => AddChildAt(h.removeItem(d, item), p, item, k)
  }

  /** The record `removeItemCommand` dispatches; `getItemIndex` throws on an
      item without parent. */
  function RemoveCommandFor(d: Doc, item: Id): (r: Result<Command>)
    requires d.tree.WellFormed()
    ensures r.Err? <==> item !in d.tree.parent
    ensures r.Ok? ==> r.value.RemoveSelectedItem? && r.value.itemRemoved == item
    ensures r.Ok? && d.tree.Attached() ==>
              var s := d.tree.children[d.tree.parent[item]];
              0 <= r.value.wasAtIndex < |s| && s[r.value.wasAtIndex] == item
  {
    match GetItemIndex(d.tree, item)
    case Err(e) => Err(e)
    case Ok(k) => Ok(RemoveSelectedItem(item, k))
  }

  /** The record `renameItemCommand` dispatches: the current title is kept as
      the old name. */
  function RenameCommandFor(d: Doc, item: Id, newName: string): (c: Command)
    requires item in d.tree.title
    ensures c.RenameItem? && c.item == item && c.newName == newName
    ensures Retitled(d, item, c.oldName) == d
  {
    UpdateSame(d.tree.title, item);
    RenameItem(item, d.tree.title[item], newName)
  }

  /** The record `createItemCommand` dispatches.  The new item is the one
      `mapPartialItem("")` makes, with the fresh id `item` the caller supplies:
      an item with an empty title, no children and closed, on its own. */
  function CreateCommandFor(d: Doc, item: Id, position: CreatePosition): (c: Command)
    ensures c.CreateItem? && c.item == item && c.position == position
    ensures c.previouslySelectedItem == d.selected
    ensures c.made == Forest(map[item := []], map[], map[item := false], map[item := ""])
  {
    CreateItem(item, PartialItems.MapPartialItem(PartialItems.Core, PartialItems.Named(""), item), position, d.selected)
  }

  /** The record `moveSelectedItemCommand` dispatches: none without a selection
      or when the selection has no parent. */
  function MoveCommandFor(d: Doc, direction: MovingDirection): (r: Option<Command>)
    requires d.tree.WellFormed()
    ensures r.None? <==> d.selected.None? || d.selected.value !in d.tree.parent
    ensures r.Some? ==> r.value.MoveItem? && Some(r.value.item) == d.selected
                        && r.value.movingDirection == direction
                        && r.value.currentParent == d.tree.parent[r.value.item]
    ensures r.Some? && d.tree.Attached() ==>
              var s := d.tree.children[r.value.currentParent];
              0 <= r.value.currentPosition < |s| && s[r.value.currentPosition] == r.value.item
  {
    if d.selected.None? || d.selected.value !in d.tree.parent then None
    else
      var item := d.selected.value;
      Some(MoveItem(direction, item, d.tree.parent[item], GetItemIndex(d.tree, item).value))
  }

  // History

  /** The app as the history sees it: the document and `app.undo`. */
  datatype Session = Session(doc: Doc, undoQueue: seq<Command>, currentHistoryIndex: int)

  /** The pointer is -1, before every command, or an index into the queue. */
  predicate InRange(s: Session)
  {
    -1 <= s.currentHistoryIndex <= |s.undoQueue| - 1
  }

  /** `initialUndoState` */
  function Initial(d: Doc): (s: Session)
    ensures InRange(s) && s.doc == d && s.undoQueue == []
  {
    Session(d, [], -1)
  }

  /** `dispatchCommand`: apply, drop the commands after the pointer, append,
      and point at the new last command. */
  function Dispatched(h: Handlers, s: Session, c: Command): (r: Session)
    ensures r.doc == Handle(h, s.doc, c)
    ensures InRange(s) ==> InRange(r) && r.currentHistoryIndex == |r.undoQueue| - 1
    ensures InRange(s) ==> r.undoQueue == s.undoQueue[..s.currentHistoryIndex + 1] + [c]
  {
    Session(Handle(h, s.doc, c), Truncate(s.undoQueue, s.currentHistoryIndex + 1) + [c], s.currentHistoryIndex + 1)
  }

  /** `undo`: at an index into the queue, revert that command and step back;
      elsewhere the lookup is `undefined` and nothing happens. */
  function Undone(h: Handlers, s: Session): (r: Session)
    ensures InRange(s) ==> InRange(r)
    ensures r.undoQueue == s.undoQueue
    ensures s.currentHistoryIndex == -1 ==> r == s
    ensures InRange(s) && s.currentHistoryIndex >= 0 ==>
              && r.currentHistoryIndex == s.currentHistoryIndex - 1
              && r.doc == HandleUndo(h, s.doc, s.undoQueue[s.currentHistoryIndex])
  {
    var i := s.currentHistoryIndex;
    if 0 <= i < |s.undoQueue| then
      s.(doc := HandleUndo(h, s.doc, s.undoQueue[i]), currentHistoryIndex := i - 1)
    else s
  }

  /** `redo`: before the last command, step forward and apply the command
      there; at the last command nothing happens. */
  function Redone(h: Handlers, s: Session): (r: Session)
    ensures InRange(s) ==> InRange(r)
    ensures r.undoQueue == s.undoQueue
    ensures s.currentHistoryIndex == |s.undoQueue| - 1 ==> r == s
    ensures InRange(s) && s.currentHistoryIndex < |s.undoQueue| - 1 ==>
              && r.currentHistoryIndex == s.currentHistoryIndex + 1
              && r.doc == Handle(h, s.doc, s.undoQueue[r.currentHistoryIndex])
  {
    if s.currentHistoryIndex < |s.undoQueue| - 1 then
      var i := s.currentHistoryIndex + 1;
      s.(doc := if 0 <= i then Handle(h, s.doc, s.undoQueue[i]) else s.doc, currentHistoryIndex := i)
    else s
  }

  /** A new command discards the redo tail: `redo` right after it does nothing. */
  lemma RedoAfterDispatch(h: Handlers, s: Session, c: Command)
    requires InRange(s)
    ensures Redone(h, Dispatched(h, s, c)) == Dispatched(h, s, c)
  {
  }

  /** Rename is an exact inverse pair: undoing a rename restores the table,
      and redoing it afterwards gives the renamed table again. */
  lemma RenameRoundTrip(h: Handlers, d: Doc, item: Id, newName: string)
    requires item in d.tree.title
    ensures var c := RenameCommandFor(d, item, newName);
      && Handle(h, d, c).tree.title[item] == newName
      && HandleUndo(h, Handle(h, d, c), c) == d
      && Handle(h, HandleUndo(h, Handle(h, d, c), c), c) == Handle(h, d, c)
  {
    var c := RenameCommandFor(d, item, newName);
    Overwrite(d.tree.title, item, newName, d.tree.title[item]);
    UpdateSame(d.tree.title, item);
    assert HandleUndo(h, Handle(h, d, c), c) == d;
  }

  /** Dispatching a rename and undoing it gives back the document and the
      pointer; the rename stays queued for `redo`. */
  lemma DispatchThenUndoRename(h: Handlers, s: Session, item: Id, newName: string)
    requires InRange(s) && item in s.doc.tree.title
    ensures var c := RenameCommandFor(s.doc, item, newName);
      var u := Undone(h, Dispatched(h, s, c));
      && u.doc == s.doc && u.currentHistoryIndex == s.currentHistoryIndex
      && Redone(h, u) == Dispatched(h, s, c)
  {
    RenameRoundTrip(h, s.doc, item, newName);
  }

  /** Undoing the removal of the item at `wasAtIndex` of its parent's children
      puts it back there and leaves the parent open; the item becomes the
      selection again when it has a view, and otherwise the selection stays. */
  lemma UndoRemoveRestores(h: Handlers, f: Forest, selected: Option<Id>, p: Id, k: nat)
    requires f.Linked() && p in f.children && k < |f.children[p]|
    ensures var item := f.children[p][k];
      var back := Doc(f.(isOpen := f.isOpen[p := true]), selected);
      var r := HandleUndo(h, Doc(ChildRemovedAt(f, p, k), selected), RemoveSelectedItem(item, k));
      && r.tree == back.tree
      && (h.hasView(back, item) ==> r.selected == Some(item))
      && (!h.hasView(back, item) ==> r.selected == selected)
  {
    var item := f.children[p][k];
    var g := ChildRemovedAt(f, p, k);
    assert g.parent == f.parent;
    assert item in g.parent && g.parent[item] == p;
    Movement.ReinsertedInPlace(f, p, k, item, k);
    ReinsertSame(f.children[p], k);
    UpdateSame(f.children, p);
    assert AddChildAt(Doc(g, selected), p, item, k).tree == f.(isOpen := f.isOpen[p := true]);
  }

  /** Dispatching a create and undoing it: the pointer is back where it was,
      the table is what `removeItem` leaves after the create, and the item
      selected before the create is selected again when it still has a view;
      otherwise the document is what `removeItem` left.  The create stays
      queued, and `redo` applies it again. */
  lemma DispatchThenUndoCreate(h: Handlers, s: Session, item: Id, position: CreatePosition)
    requires InRange(s)
    ensures var c := CreateCommandFor(s.doc, item, position);
      var u := Undone(h, Dispatched(h, s, c));
      var e := h.removeItem(Handle(h, s.doc, c), item);
      && u.currentHistoryIndex == s.currentHistoryIndex
      && u.doc.tree == e.tree
      && (s.doc.selected.Some? && h.hasView(e, s.doc.selected.value) ==> u.doc.selected == s.doc.selected)
      && (s.doc.selected.None? || !h.hasView(e, s.doc.selected.value) ==> u.doc == e)
      && Redone(h, u) == Dispatched(h, s, c).(doc := Handle(h, u.doc, c))
  {
  }

  /** Undoing a move puts the item back under its recorded parent at its
      recorded index, after `removeItem`; that parent is left open. */
  lemma UndoMoveReinserts(h: Handlers, d: Doc, direction: MovingDirection, item: Id, p: Id, k: nat)
    requires p in h.removeItem(d, item).tree.children
    requires k <= |h.removeItem(d, item).tree.children[p]|
    ensures var before := h.removeItem(d, item).tree.children[p];
      var r := HandleUndo(h, d, MoveItem(direction, item, p, k)).tree;
      && r.children[p] == before[..k] + [item] + before[k..]
      && r.parent[item] == p && r.isOpen[p]
  {
    var e := h.removeItem(d, item);
    AddChildAtEffect(e.tree, p, item, k);
    var s := ChildAddedAt(e.tree, p, item, k).children[p];
    assert s == s[..k] + [s[k]] + s[k + 1..];
  }

  /** Undoing a move returns the item to the place the record found it in:
      when `removeItem` leaves the old parent with its children from before
      the move, less the item, undo restores those children exactly. */
  lemma UndoMoveReturns(h: Handlers, d: Doc, direction: MovingDirection, moved: Doc)
    requires d.tree.WellFormed() && d.tree.Attached()
    requires MoveCommandFor(d, direction).Some?
    requires var c := MoveCommandFor(d, direction).value;
      var e := h.removeItem(moved, c.item).tree;
      c.currentParent in e.children && e.children[c.currentParent] == Without(d.tree.children[c.currentParent], c.item)
    ensures var c := MoveCommandFor(d, direction).value;
      var r := HandleUndo(h, moved, c).tree;
      r.children[c.currentParent] == d.tree.children[c.currentParent] && r.parent[c.item] == c.currentParent
  {
    var c := MoveCommandFor(d, direction).value;
    var p, k, item := c.currentParent, c.currentPosition, c.item;
    var s := d.tree.children[p];
    assert NoDup(s);
    WithoutSingle(s, item, k);
    ReinsertSame(s, k);
    var e := h.removeItem(moved, item);
    assert HandleUndo(h, moved, c) == AddChildAt(e, p, item, k);
  }

  /** The app with its undo state (`app.undo`), updated in place. */
  class App {
    var doc: Doc
    var undoQueue: seq<Command>
    var currentHistoryIndex: int

    /** The state these fields currently hold. */
    function Value(): Session
      reads this
    {
      Session(doc, undoQueue, currentHistoryIndex)
    }

    /** An app with `initialUndoState`. */
    constructor (d: Doc)
      ensures Value() == Initial(d)
    {
      doc, undoQueue, currentHistoryIndex := d, [], -1;
    }

    /** `dispatchCommand` */
    method DispatchCommand(h: Handlers, command: Command)
      modifies this
      ensures Value() == Dispatched(h, old(Value()), command)
    {
      doc := Handle(h, doc, command);
      undoQueue := Truncate(undoQueue, currentHistoryIndex + 1);
      undoQueue := undoQueue + [command];
      currentHistoryIndex := currentHistoryIndex + 1;
    }

    /** `undo` */
    method Undo(h: Handlers)
      modifies this
      ensures Value() == Undone(h, old(Value()))
    {
      if 0 <= currentHistoryIndex < |undoQueue| {
        var command := undoQueue[currentHistoryIndex];
        doc := HandleUndo(h, doc, command);
        currentHistoryIndex := currentHistoryIndex - 1;
      }
    }

    /** `redo` */
    method Redo(h: Handlers)
      modifies this
      ensures Value() == Redone(h, old(Value()))
    {
      if currentHistoryIndex < |undoQueue| - 1 {
        currentHistoryIndex := currentHistoryIndex + 1;
        if 0 <= currentHistoryIndex {
          var upcomingCommand := undoQueue[currentHistoryIndex];
          doc := Handle(h, doc, upcomingCommand);
        }
      }
    }

    /** `removeItemCommand`: fails, recording nothing, on an item without
        parent. */
    method RemoveItemCommand(h: Handlers, itemRemoved: Id) returns (r: Result<()>)
      requires doc.tree.WellFormed()
      modifies this
      ensures r.Err? <==> RemoveCommandFor(old(doc), itemRemoved).Err?
      ensures r.Err? ==> Value() == old(Value())
      ensures r.Ok? ==> Value() == Dispatched(h, old(Value()), RemoveCommandFor(old(doc), itemRemoved).value)
    {
      var c := RemoveCommandFor(doc, itemRemoved);
      if c.Err? {
        return Err(c.failure);
      }
      DispatchCommand(h, c.value);
      return Ok(());
    }

    /** `renameItemCommand` */
    method RenameItemCommand(h: Handlers, item: Id, newName: string)
      requires item in doc.tree.title
      modifies this
      ensures Value() == Dispatched(h, old(Value()), RenameCommandFor(old(doc), item, newName))
    {
      DispatchCommand(h, RenameCommandFor(doc, item, newName));
    }

    /** `createItemCommand`, with `item` the fresh item. */
    method CreateItemCommand(h: Handlers, item: Id, position: CreatePosition)
      modifies this
      ensures Value() == Dispatched(h, old(Value()), CreateCommandFor(old(doc), item, position))
    {
      DispatchCommand(h, CreateCommandFor(doc, item, position));
    }

    /** `moveSelectedItemCommand`: records nothing without a selection or when
        the selection has no parent. */
    method MoveSelectedItemCommand(h: Handlers, movingDirection: MovingDirection)
      requires doc.tree.WellFormed()
      modifies this
      ensures MoveCommandFor(old(doc), movingDirection).None? ==> Value() == old(Value())
      ensures MoveCommandFor(old(doc), movingDirection).Some? ==>
                Value() == Dispatched(h, old(Value()), MoveCommandFor(old(doc), movingDirection).value)
    {
      var c := MoveCommandFor(doc, movingDirection);
      if c.Some? {
        DispatchCommand(h, c.value);
      }
    }
  }
}
