/**
 * The self-contained engine of src/core/app.ts: an app state holding the
 * root item, the views of the visible items and the selected item, with the
 * four movement actions.  Items and their fields are the `Tree.Forest` table;
 * a view is a value filed under its item.
 *
 * A view object is reachable twice in the source: from `app.views` and from
 * its item's `view` field.  `createView` sets both at once, `moveLeft` only
 * deletes from `app.views`, so the item's `view` field may keep a view that
 * `app.views` has dropped.  The model keeps the item's field as `view` (every
 * item's latest view) and the keys of `app.views` as `shown`, a subset of it:
 * `app.views.get(x)` is `view[x]` when `x` is shown.
 */
module CoreApp {
  import opened Wrappers
  import opened Arrays
  import opened Tree
  import opened Layout
  import opened PartialItems

  /** `ItemView`: a grid cell, the item, and whether it is drawn as selected. */
  datatype ItemView = ItemView(gridX: int, gridY: int, item: Id, isSelected: bool)

  /** `layoutRoot`: the callback calls of `traverseItems(root.children, 0, 0, cb)`.
      `hasVisibleChildren` here is `isOpen && children.length > 0`, with no
      focused item, which is `Layout.Traverse` without a focus. */
  function LayoutRoot(f: Forest, root: Id): seq<Placement>
    requires f.Valid() && root in f.children
  {
    ValidWalkable(f);
    var r := f.TheRank();
    Traverse(f, None, f.children[root], 0, 0, r, r.level[root] + 1)
  }

  /** The root's children sit at column 0, from row 0 on, one row per call;
      nothing lies left of column 0; an item's visible children follow it one
      column further right, and the walk descends exactly into open items with
      children. */
  lemma LayoutRootShape(f: Forest, root: Id)
    requires f.Valid() && root in f.children
    ensures var ps := LayoutRoot(f, root);
      && RowsFrom(ps, 0) && ColumnsFrom(ps, 0) && AtColumn(ps, 0) == f.children[root]
      && Chain(f, None, ps)
  {
    ValidWalkable(f);
    var r := f.TheRank();
    TraverseShape(f, None, f.children[root], 0, 0, r, r.level[root] + 1);
  }

  /** `layoutRoot` places no item twice. */
  lemma LayoutRootDistinct(f: Forest, root: Id)
    requires f.Valid() && root in f.children
    ensures Distinct(LayoutRoot(f, root))
  {
    ValidWalkable(f);
    ChildrenLevels(f, root);
    TraverseDistinct(f, None, f.children[root], 0, 0, root);
  }

  /** Whatever is placed at a column is placed. */
  lemma {:induction false} AtColumnPlaced(ps: seq<Placement>, c: int)
    ensures forall x | x in AtColumn(ps, c) :: x in Items(ps)
  {
    if ps != [] {
      AtColumnPlaced(ps[1..], c);
      forall x | x in AtColumn(ps[1..], c) ensures x in Items(ps) {
        var i :| 0 <= i < |ps[1..]| && ps[1..][i].item == x;
        assert ps[i + 1].item == x;
      }
    }
  }

  /** The root's first child is an item, and `layoutRoot` places it. */
  lemma FirstChildPlaced(f: Forest, root: Id)
    requires f.Valid() && root in f.children && |f.children[root]| > 0
    ensures f.children[root][0] in f.children && f.children[root][0] in Items(LayoutRoot(f, root))
  {
    var ps := LayoutRoot(f, root);
    LayoutRootShape(f, root);
    AtColumnPlaced(ps, 0);
    assert f.children[root][0] in AtColumn(ps, 0);
    ChildLevel(f, root, f.children[root][0]);
  }

  // ---------------------------------------------------------------------------
  // Views
  // ---------------------------------------------------------------------------

  /** The `i`-th placement is the last one of its item. */
  ghost predicate LastAt(ps: seq<Placement>, i: int)
    requires 0 <= i < |ps|
  {
    forall j | i < j < |ps| :: ps[j].item != ps[i].item
  }

  /** A placement that is last in `ps` is last in the prefix that still holds
      it, and its item differs from the final one. */
  lemma LastAtPrefix(ps: seq<Placement>, i: int)
    requires 0 <= i < |ps| - 1 && LastAt(ps, i)
    ensures LastAt(ps[..|ps| - 1], i) && ps[i].item != ps[|ps| - 1].item
  {
  }

  /** The items of a walk are those of all but its last placement, and that one's. */
  lemma ItemsSnoc(ps: seq<Placement>)
    requires ps != []
    ensures Items(ps) == Items(ps[..|ps| - 1]) + {ps[|ps| - 1].item}
  {
    var n := |ps| - 1;
    forall x | x in Items(ps) ensures x in Items(ps[..n]) + {ps[n].item} {
      var i :| 0 <= i < |ps| && ps[i].item == x;
      if i < n {
        assert ps[..n][i] == ps[i];
      }
    }
  }

  /** No view is drawn as selected except that of `selected`. */
  ghost predicate AtMostSelected(view: map<Id, ItemView>, selected: Option<Id>)
  {
    forall x | x in view && view[x].isSelected :: selected == Some(x)
  }

  /** Every view is filed under its own item. */
  ghost predicate Filed(view: map<Id, ItemView>)
  {
    forall x | x in view :: view[x].item == x
  }

  /** The views `createApp` builds: each callback call sets the view of its
      item, selected exactly when the item is the selected one. */
  function Created(selected: Option<Id>, ps: seq<Placement>): map<Id, ItemView>
    decreases |ps|
  {
    if ps == [] then map[]
    else
      var q := ps[|ps| - 1];
      Created(selected, ps[..|ps| - 1])[q.item := ItemView(q.gridX, q.gridY, q.item, selected == Some(q.item))]
  }

  /** `createApp` creates one view per placed item, filed under it, and only
      the selected item's view is drawn as selected. */
  lemma {:induction false} CreatedKeys(selected: Option<Id>, ps: seq<Placement>)
    ensures var m := Created(selected, ps);
      && m.Keys == Items(ps) && Filed(m)
      && (forall x | x in m :: m[x].isSelected <==> selected == Some(x))
    decreases |ps|
  {
    if ps != [] {
      CreatedKeys(selected, ps[..|ps| - 1]);
      ItemsSnoc(ps);
    }
  }

  /** Each created view sits in the cell of its item's last placement. */
  lemma {:induction false} CreatedCells(selected: Option<Id>, ps: seq<Placement>)
    ensures var m := Created(selected, ps);
      forall i | 0 <= i < |ps| && LastAt(ps, i) ::
        ps[i].item in m && m[ps[i].item].gridX == ps[i].gridX && m[ps[i].item].gridY == ps[i].gridY
    decreases |ps|
  {
    if ps != [] {
      var n := |ps| - 1;
      var m := Created(selected, ps);
      var prev := Created(selected, ps[..n]);
      assert m == prev[ps[n].item := ItemView(ps[n].gridX, ps[n].gridY, ps[n].item, selected == Some(ps[n].item))];
      CreatedCells(selected, ps[..n]);
      forall i | 0 <= i < |ps| && LastAt(ps, i)
        ensures ps[i].item in m && m[ps[i].item].gridX == ps[i].gridX && m[ps[i].item].gridY == ps[i].gridY
      {
        if i < n {
          LastAtPrefix(ps, i);
          assert ps[..n][i] == ps[i];
        }
      }
    }
  }

  /** On a walk that places no item twice, every placed item's view is the
      view of its one placement. */
  lemma CreatedEach(selected: Option<Id>, ps: seq<Placement>)
    requires Distinct(ps)
    ensures var m := Created(selected, ps);
      forall i | 0 <= i < |ps| ::
        ps[i].item in m && m[ps[i].item] == ItemView(ps[i].gridX, ps[i].gridY, ps[i].item, selected == Some(ps[i].item))
  {
    CreatedKeys(selected, ps);
    CreatedCells(selected, ps);
  }

  /** The views after `moveLeft`'s callback calls: each placed item whose view
      is shown has that view moved to its cell. */
  function Regridded(view: map<Id, ItemView>, shown: set<Id>, ps: seq<Placement>): (v: map<Id, ItemView>)
    requires shown <= view.Keys
    ensures v.Keys == view.Keys
    decreases |ps|
  {
    if ps == [] then view
    else
      var v := Regridded(view, shown, ps[..|ps| - 1]);
      var q := ps[|ps| - 1];
      if q.item in shown then v[q.item := v[q.item].(gridX := q.gridX, gridY := q.gridY)] else v
  }

  /** Moving views changes no item and no selection flag, and leaves every
      view that is not shown, or whose item is not placed, as it was. */
  lemma {:induction false} RegriddedKeeps(view: map<Id, ItemView>, shown: set<Id>, ps: seq<Placement>)
    requires shown <= view.Keys
    ensures var v := Regridded(view, shown, ps);
      && (forall x | x in view :: v[x].item == view[x].item && v[x].isSelected == view[x].isSelected)
      && (forall x | x in view && (x !in shown || x !in Items(ps)) :: v[x] == view[x])
    decreases |ps|
  {
    if ps != [] {
      RegriddedKeeps(view, shown, ps[..|ps| - 1]);
      ItemsSnoc(ps);
    }
  }

  /** A shown, placed item's view ends in the cell of its last placement. */
  lemma {:induction false} RegriddedCells(view: map<Id, ItemView>, shown: set<Id>, ps: seq<Placement>)
    requires shown <= view.Keys
    ensures var v := Regridded(view, shown, ps);
      forall i | 0 <= i < |ps| && LastAt(ps, i) && ps[i].item in shown ::
        v[ps[i].item].gridX == ps[i].gridX && v[ps[i].item].gridY == ps[i].gridY
    decreases |ps|
  {
    if ps != [] {
      var n := |ps| - 1;
      var v := Regridded(view, shown, ps);
      var prev := Regridded(view, shown, ps[..n]);
      assert v == if ps[n].item in shown then prev[ps[n].item := prev[ps[n].item].(gridX := ps[n].gridX, gridY := ps[n].gridY)] else prev;
      RegriddedCells(view, shown, ps[..n]);
      forall i | 0 <= i < n && LastAt(ps, i) && ps[i].item in shown
        ensures v[ps[i].item].gridX == ps[i].gridX && v[ps[i].item].gridY == ps[i].gridY
      {
        LastAtPrefix(ps, i);
        assert ps[..n][i] == ps[i];
      }
    }
  }

  /** The views and the shown items after `moveRight`'s callback calls: a
      placed item whose view is shown has it moved to its cell; any other
      placed item gets a new view there, selected when it is the selected
      item, and is shown from then on. */
  function Revealed(view: map<Id, ItemView>, shown: set<Id>, selected: Option<Id>, ps: seq<Placement>)
    : (r: (map<Id, ItemView>, set<Id>))
    requires shown <= view.Keys
    ensures r.1 <= r.0.Keys
    decreases |ps|
  {
    if ps == [] then (view, shown)
    else
      var (v, s) := Revealed(view, shown, selected, ps[..|ps| - 1]);
      var q := ps[|ps| - 1];
      if q.item in s then (v[q.item := v[q.item].(gridX := q.gridX, gridY := q.gridY)], s)
      else (v[q.item := ItemView(q.gridX, q.gridY, q.item, selected == Some(q.item))], s + {q.item})
  }

  /** After `moveRight`'s callback calls every placed item is shown and has
      a view. */
  lemma {:induction false} RevealedShown(view: map<Id, ItemView>, shown: set<Id>, selected: Option<Id>, ps: seq<Placement>)
    requires shown <= view.Keys
    ensures var (v, s) := Revealed(view, shown, selected, ps);
      s == shown + Items(ps) && v.Keys == view.Keys + Items(ps)
    decreases |ps|
  {
    if ps != [] {
      RevealedShown(view, shown, selected, ps[..|ps| - 1]);
      ItemsSnoc(ps);
    }
  }

  /** A view that was shown keeps its item and flag; an item that was not
      shown gets a fresh view, filed under it and selected exactly when it is
      the selected item, even if an older view of it was still around; views
      of other items are untouched. */
  lemma {:induction false} RevealedKeeps(view: map<Id, ItemView>, shown: set<Id>, selected: Option<Id>, ps: seq<Placement>)
    requires shown <= view.Keys
    ensures var v := Revealed(view, shown, selected, ps).0;
      && (forall x | x in shown :: x in v && v[x].item == view[x].item && v[x].isSelected == view[x].isSelected)
      && (forall x | x in Items(ps) && x !in shown :: x in v && v[x].item == x && (v[x].isSelected <==> selected == Some(x)))
      && (forall x | x in view && x !in Items(ps) :: x in v && v[x] == view[x])
    decreases |ps|
  {
    if ps != [] {
      var n := |ps| - 1;
      var (pv, psh) := Revealed(view, shown, selected, ps[..n]);
      var q := ps[n];
      var v := Revealed(view, shown, selected, ps).0;
      RevealedShown(view, shown, selected, ps[..n]);
      RevealedKeeps(view, shown, selected, ps[..n]);
      ItemsSnoc(ps);
      assert psh == shown + Items(ps[..n]) && pv.Keys == view.Keys + Items(ps[..n]);
      var nv := if q.item in psh then pv[q.item].(gridX := q.gridX, gridY := q.gridY)
        else ItemView(q.gridX, q.gridY, q.item, selected == Some(q.item));
      assert v == pv[q.item := nv];
      forall x | x in shown
        ensures x in v && v[x].item == view[x].item && v[x].isSelected == view[x].isSelected
      {
        if x != q.item {
          assert v[x] == pv[x];
        }
      }
      forall x | x in Items(ps) && x !in shown
        ensures x in v && v[x].item == x && (v[x].isSelected <==> selected == Some(x))
      {
        if x != q.item {
          assert x in Items(ps[..n]) && v[x] == pv[x];
        }
      }
      forall x | x in view && x !in Items(ps)
        ensures x in v && v[x] == view[x]
      {
        assert x != q.item && v[x] == pv[x];
      }
    }
  }

  /** Every placed item's view ends in the cell of its last placement. */
  lemma {:induction false} RevealedCells(view: map<Id, ItemView>, shown: set<Id>, selected: Option<Id>, ps: seq<Placement>)
    requires shown <= view.Keys
    ensures var v := Revealed(view, shown, selected, ps).0;
      forall i | 0 <= i < |ps| && LastAt(ps, i) ::
        ps[i].item in v && v[ps[i].item].gridX == ps[i].gridX && v[ps[i].item].gridY == ps[i].gridY
    decreases |ps|
  {
    if ps != [] {
      var n := |ps| - 1;
      var v := Revealed(view, shown, selected, ps).0;
      var (pv, psh) := Revealed(view, shown, selected, ps[..n]);
      var q := ps[n];
      assert v == if q.item in psh then pv[q.item := pv[q.item].(gridX := q.gridX, gridY := q.gridY)]
        else pv[q.item := ItemView(q.gridX, q.gridY, q.item, selected == Some(q.item))];
      RevealedCells(view, shown, selected, ps[..n]);
      forall i | 0 <= i < n && LastAt(ps, i)
        ensures ps[i].item in v && v[ps[i].item].gridX == ps[i].gridX && v[ps[i].item].gridY == ps[i].gridY
      {
        LastAtPrefix(ps, i);
        assert ps[..n][i] == ps[i];
      }
    }
  }

  /** The `views.set` calls of `createApp`'s layout callback, in order. */
  method CreateViews(selected: Option<Id>, ps: seq<Placement>) returns (views: map<Id, ItemView>)
    ensures views == Created(selected, ps)
  {
    views := map[];
    var i := 0;
    while i < |ps|
      invariant 0 <= i <= |ps|
      invariant views == Created(selected, ps[..i])
    {
      var p := ps[i];
      views := views[p.item := ItemView(p.gridX, p.gridY, p.item, selected == Some(p.item))];
      assert ps[..i + 1][..i] == ps[..i];
      i := i + 1;
    }
    assert ps[..i] == ps;
  }

  // ---------------------------------------------------------------------------
  // Selection
  // ---------------------------------------------------------------------------

  /** `changeSelection(app, target)` on the views and the selected item:
      nothing for `undefined`; otherwise the current item's view, if any, is
      cleared, and the target becomes selected only if it has a view. */
  function Selection(view: map<Id, ItemView>, selected: Option<Id>, target: Option<Id>)
    : (r: (map<Id, ItemView>, Option<Id>))
    ensures r.0.Keys == view.Keys
  {
    match target
    case None => (view, selected)
    case Some(t) =>
      var cleared := if selected.Some? && selected.value in view
        then view[selected.value := view[selected.value].(isSelected := false)] else view;
      if t in cleared then (cleared[t := cleared[t].(isSelected := true)], target)
      else (cleared, selected)
  }

  /** A target with a view becomes the selected item and its view the only
      one drawn as selected, provided no other view was drawn as selected
      before.  A target without a view leaves the selected item as it was but
      clears its flag.  No view changes item or cell. */
  lemma SelectionFlags(view: map<Id, ItemView>, selected: Option<Id>, target: Option<Id>)
    requires AtMostSelected(view, selected)
    ensures var (v, s) := Selection(view, selected, target);
      && AtMostSelected(v, s)
      && (forall x | x in view :: v[x].item == view[x].item && v[x].gridX == view[x].gridX && v[x].gridY == view[x].gridY)
      && (target.Some? && target.value in view ==> s == target && forall x | x in v :: v[x].isSelected <==> x == target.value)
      && (target.Some? && target.value !in view ==> s == selected && forall x | x in v :: !v[x].isSelected)
      && (target.None? ==> v == view && s == selected)
  {
  }

  // ---------------------------------------------------------------------------
  // Navigation
  // ---------------------------------------------------------------------------

  /** `getItemBelow`: the first child of an open item with children, else
      `getFollowingItem`, whose board tests are always false here, which
      leaves `Tree.Following`. */
  function AppItemBelow(f: Forest, x: Id): (r: Option<Id>)
    requires f.Valid() && x in f.children
  {
    if f.isOpen[x] && |f.children[x]| > 0 then Some(f.children[x][0]) else Following(f, x)
  }

  /** The item below is an item: the first child of an open item, or an item
      outside the subtree of `x` that is a child of one of its ancestors. */
  lemma AppItemBelowFound(f: Forest, x: Id)
    requires f.Valid() && x in f.children && AppItemBelow(f, x).Some?
    ensures var y := AppItemBelow(f, x).value;
      && y in f.children
      && (if f.isOpen[x] && |f.children[x]| > 0 then y == f.children[x][0]
          else !InSubtree(f, y, x) && y in f.parent && InSubtree(f, x, f.parent[y]))
  {
    if f.isOpen[x] && |f.children[x]| > 0 {
      ChildLevel(f, x, f.children[x][0]);
    } else {
      FollowingOutsideSubtree(f, x);
    }
  }

  /** `getItemAbove` as src/core/app.ts writes it: the board branches are
      dead (`isBoard` is constantly false), and the previous sibling goes to
      `getLastNestedItem` whether it is open or not. */
  function AppItemAbove(f: Forest, x: Id): (r: Result<Option<Id>>)
    requires f.Valid() && x in f.children
  {
    if x in f.parent then
      var p := f.parent[x];
      var index := IndexOf(f.children[p], x);
      if index > 0 then
        ChildLevel(f, p, f.children[p][index - 1]);
        match LastNestedItem(f, f.children[p][index - 1])
        case Ok(y) => Ok(Some(y))
        case Err(e) => Err(e)
      else if !IsRoot(f, p) then Ok(Some(p))
      else Ok(None)
    else Ok(None)
  }

  /** It finds what `Tree.ItemAbove` (src/core/tree.ts) finds: descending
      into an open previous sibling first is the first step of
      `getLastNestedItem` itself. */
  lemma AppItemAboveSame(f: Forest, x: Id)
    requires f.Valid() && x in f.children
    ensures AppItemAbove(f, x) == Tree.ItemAbove(f, x)
  {
    if x in f.parent {
      var p := f.parent[x];
      var index := IndexOf(f.children[p], x);
      if index > 0 {
        var prev := f.children[p][index - 1];
        ChildLevel(f, p, prev);
        var pc := f.children[prev];
        if f.isOpen[prev] && |pc| > 0 {
          ChildLevel(f, prev, pc[|pc| - 1]);
          var r := LastNestedItem(f, pc[|pc| - 1]);
          assert LastNestedItem(f, prev) == r;
        }
      }
    }
  }

  /** The item above is an item: a closed one inside the previous sibling's
      subtree, or else the parent. */
  lemma AppItemAboveFound(f: Forest, x: Id)
    requires f.Valid() && x in f.children
    ensures var r := AppItemAbove(f, x);
      r.Ok? && r.value.Some? ==>
        && x in f.parent && r.value.value in f.children
        && var s := f.children[f.parent[x]];
           var k := IndexOf(s, x);
           if k > 0 then 0 < k < |s| && InSubtree(f, r.value.value, s[k - 1]) && !f.isOpen[r.value.value]
           else r.value.value == f.parent[x]
  {
    if x in f.parent {
      var p := f.parent[x];
      ParentLevel(f, x);
    }
  }

  /** Closing an item or opening it keeps the table valid. */
  lemma OpenFlagSet(f: Forest, x: Id, b: bool)
    requires f.Valid() && x in f.children
    ensures f.(isOpen := f.isOpen[x := b]).Valid()
    ensures f.(isOpen := f.isOpen[x := b]).children == f.children
  {
    var g := f.(isOpen := f.isOpen[x := b]);
    assert g.isOpen.Keys == f.isOpen.Keys;
    assert g.RankedBy(f.TheRank());
  }

  // ---------------------------------------------------------------------------
  // The app state
  // ---------------------------------------------------------------------------

  /** `AppState`, mutated in place by the actions. */
  class App {
    var tree: Forest
    var root: Id
    /** The `view` field of every item that ever got one. */
    var view: map<Id, ItemView>
    /** The keys of `app.views`. */
    var shown: set<Id>
    var selected: Option<Id>

    ghost predicate Valid()
      reads this
    {
      && tree.Valid() && root in tree.children && IsRoot(tree, root)
      && shown <= view.Keys && Filed(view)
      && (selected.Some? ==> selected.value in tree.children && selected.value in view)
      && AtMostSelected(view, selected)
    }

    /** `createApp(items)`: the root is `mapPartialItem({ title: "Root",
        children: items })`, with ids from 0; its first child, if any, is
        selected; every item the layout places gets a view. */
    constructor (items: seq<Partial>)
      ensures Valid()
      ensures tree == MapPartialItem(Core, Record(Some("Root"), None, items), 0) && root == 0
      ensures selected == if items == [] then None else Some(tree.children[0][0])
      ensures view == Created(selected, LayoutRoot(tree, root)) && shown == view.Keys
    {
      var f := MapPartialItem(Core, Record(Some("Root"), None, items), 0);
      RootTree(Core, items, f);
      var sel := if items == [] then None else Some(f.children[0][0]);
      var ps := LayoutRoot(f, 0);
      var views := CreateViews(sel, ps);
      CreatedKeys(sel, ps);
      if sel.Some? {
        FirstChildPlaced(f, 0);
      }
      tree, root, view, shown, selected := f, 0, views, views.Keys, sel;
    }

    /** `changeSelection(app, target)`. */
    method ChangeSelection(target: Option<Id>)
      requires Valid()
      requires target.Some? ==> target.value in tree.children
      modifies this
      ensures Valid()
      ensures (view, selected) == Selection(old(view), old(selected), target)
      ensures tree == old(tree) && root == old(root) && shown == old(shown)
    {
      if target.None? {
        return;
      }
      if selected.Some? && selected.value in view {
        view := view[selected.value := view[selected.value].(isSelected := false)];
      }
      if target.value in view {
        view := view[target.value := view[target.value].(isSelected := true)];
        selected := target;
      }
      SelectionFlags(old(view), old(selected), target);
    }

    /** `moveDown`: selects the item below the selected one; with nothing
        below, nothing changes. */
    method MoveDown()
      requires Valid()
      modifies this
      ensures Valid()
      ensures tree == old(tree) && root == old(root) && shown == old(shown)
      ensures old(selected).None? ==> view == old(view) && selected == old(selected)
      ensures old(selected).Some? ==>
        (view, selected) == Selection(old(view), old(selected), AppItemBelow(tree, old(selected).value))
    {
      if selected.Some? {
        var below := AppItemBelow(tree, selected.value);
        if below.Some? {
          AppItemBelowFound(tree, selected.value);
        }
        ChangeSelection(below);
      }
    }

    /** `moveUp`: selects the item above the selected one.  When
        `getItemAbove` throws, the state is left as it was. */
    method MoveUp() returns (outcome: Result<()>)
      requires Valid()
      modifies this
      ensures Valid()
      ensures tree == old(tree) && root == old(root) && shown == old(shown)
      ensures old(selected).None? ==> outcome == Ok(()) && view == old(view) && selected == old(selected)
      ensures old(selected).Some? ==>
        match AppItemAbove(tree, old(selected).value)
        case Err(e) => outcome == Err(e) && view == old(view) && selected == old(selected)
        case Ok(above) => outcome == Ok(()) && (view, selected) == Selection(old(view), old(selected), above)
    {
      outcome := Ok(());
      if selected.Some? {
        var above := AppItemAbove(tree, selected.value);
        match above
        case Err(e) =>
          outcome := Err(e);
        case Ok(target) =>
          AppItemAboveSame(tree, selected.value);
          if target.Some? {
            AppItemAboveFound(tree, selected.value);
          }
          ChangeSelection(target);
      }
    }

    /** `moveLeft`: an open selected item is closed, the views of all its
        descendants leave `app.views`, and the views still there move to the
        cells of the new layout; a closed one hands the selection to its
        parent, unless that parent is the root. */
    method MoveLeft()
      requires Valid()
      modifies this
      ensures Valid()
      ensures root == old(root) && tree.children == old(tree.children) && tree.parent == old(tree.parent)
      ensures old(selected).None? ==> tree == old(tree) && view == old(view) && shown == old(shown) && selected == old(selected)
      ensures old(selected).Some? && old(tree).isOpen[old(selected).value] ==>
        var s := old(selected).value;
        && tree == old(tree).(isOpen := old(tree).isOpen[s := false])
        && shown == old(shown) - Members(Descendants(old(tree), s))
        && view == Regridded(old(view), shown, LayoutRoot(tree, root))
        && selected == old(selected)
      ensures old(selected).Some? && !old(tree).isOpen[old(selected).value] ==>
        var s := old(selected).value;
        && tree == old(tree) && shown == old(shown)
        && (view, selected) == if s in tree.parent && !IsRoot(tree, tree.parent[s])
             then Selection(old(view), old(selected), Some(tree.parent[s]))
             else (old(view), old(selected))
    {
      if selected.Some? {
        var s := selected.value;
        if tree.isOpen[s] {
          var gone := Descendants(tree, s);
          OpenFlagSet(tree, s, false);
          tree := tree.(isOpen := tree.isOpen[s := false]);
          ghost var closed := tree;
          var i := 0;
          while i < |gone|
            invariant 0 <= i <= |gone|
            invariant shown == old(shown) - Members(gone[..i])
            invariant tree == closed && view == old(view) && root == old(root) && selected == old(selected)
          {
            shown := shown - {gone[i]};
            assert gone[..i + 1] == gone[..i] + [gone[i]];
            i := i + 1;
          }
          assert gone[..i] == gone;
          Regrid(LayoutRoot(tree, root));
        } else if s in tree.parent && !IsRoot(tree, tree.parent[s]) {
          ParentLevel(tree, s);
          ChangeSelection(Some(tree.parent[s]));
        }
      }
    }

    /** The callback of `moveLeft`'s `layoutRoot` call, for each placement in
        order: a shown view moves to the placement's cell. */
    method Regrid(ps: seq<Placement>)
      requires Valid()
      modifies this
      ensures Valid()
      ensures tree == old(tree) && root == old(root) && shown == old(shown) && selected == old(selected)
      ensures view == Regridded(old(view), shown, ps)
    {
      var i := 0;
      while i < |ps|
        invariant 0 <= i <= |ps|
        invariant tree == old(tree) && root == old(root) && shown == old(shown) && selected == old(selected)
        invariant view == Regridded(old(view), shown, ps[..i])
      {
        var p := ps[i];
        if p.item in shown {
          view := view[p.item := view[p.item].(gridX := p.gridX, gridY := p.gridY)];
        }
        assert ps[..i + 1][..i] == ps[..i];
        i := i + 1;
      }
      assert ps[..i] == ps;
      RegriddedKeeps(old(view), shown, ps);
      RegriddedCells(old(view), shown, ps);
    }

    /** `moveRight`: an open selected item with children hands the selection
        to its first child; a closed one is opened, and the layout callback
        moves every shown view to its new cell and creates a view for every
        newly placed item. */
    method MoveRight()
      requires Valid()
      modifies this
      ensures Valid()
      ensures root == old(root) && tree.children == old(tree.children) && tree.parent == old(tree.parent)
      ensures old(selected).None? ==> tree == old(tree) && view == old(view) && shown == old(shown) && selected == old(selected)
      ensures old(selected).Some? ==>
        var s := old(selected).value;
        if old(tree).isOpen[s] && |old(tree).children[s]| > 0 then
          && tree == old(tree) && shown == old(shown)
          && (view, selected) == Selection(old(view), old(selected), Some(tree.children[s][0]))
        else if !old(tree).isOpen[s] then
          && tree == old(tree).(isOpen := old(tree).isOpen[s := true])
          && (view, shown) == Revealed(old(view), old(shown), selected, LayoutRoot(tree, root))
          && selected == old(selected)
        else
          tree == old(tree) && view == old(view) && shown == old(shown) && selected == old(selected)
    {
      if selected.Some? {
        var s := selected.value;
        if tree.isOpen[s] && |tree.children[s]| > 0 {
          ChildLevel(tree, s, tree.children[s][0]);
          ChangeSelection(Some(tree.children[s][0]));
        } else if !tree.isOpen[s] {
          OpenFlagSet(tree, s, true);
          tree := tree.(isOpen := tree.isOpen[s := true]);
          Reveal(LayoutRoot(tree, root));
        }
      }
    }

    /** The callback of `moveRight`'s `layoutRoot` call, for each placement in
        order: a shown view moves to the placement's cell, any other item gets
        a new view there and is shown. */
    method Reveal(ps: seq<Placement>)
      requires Valid()
      modifies this
      ensures Valid()
      ensures (view, shown) == Revealed(old(view), old(shown), selected, ps)
      ensures tree == old(tree) && root == old(root) && selected == old(selected)
    {
      var i := 0;
      while i < |ps|
        invariant 0 <= i <= |ps|
        invariant (view, shown) == Revealed(old(view), old(shown), selected, ps[..i])
        invariant tree == old(tree) && root == old(root) && selected == old(selected)
      {
        var p := ps[i];
        if p.item in shown {
          view := view[p.item := view[p.item].(gridX := p.gridX, gridY := p.gridY)];
        } else {
          view := view[p.item := ItemView(p.gridX, p.gridY, p.item, selected == Some(p.item))];
          shown := shown + {p.item};
        }
        assert ps[..i + 1][..i] == ps[..i];
        i := i + 1;
      }
      assert ps[..i] == ps;
      RevealedShown(old(view), old(shown), selected, ps);
      RevealedKeeps(old(view), old(shown), selected, ps);
      RevealedCells(old(view), old(shown), selected, ps);
    }
  }
}
