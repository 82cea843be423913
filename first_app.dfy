/**
 * The first, self-contained engine (src/app.ts): an app state holding the
 * root item, its views as an array in layout order, and the selected item,
 * with `moveDown` as its only action.
 *
 * A view object is reachable twice in the source: from `app.views` and from
 * its item's `view` field.  Here `views` is the array and `viewOf` the `view`
 * field of every item that has one, as a position in that array, so that
 * setting `isSelected` through either path is the same update.
 */
module FirstApp {
  import opened Wrappers
  import opened Tree
  import opened Layout
  import opened PartialItems
  import CoreApp

  /** `ItemView`: a grid cell, the item, and whether it is drawn as selected. */
  datatype ItemView = ItemView(gridX: int, gridY: int, item: Id, isSelected: bool)

  /** Every item's `view` field points at a view of that item, and every view
      in the array is the one its item points at. */
  ghost predicate Owned(views: seq<ItemView>, viewOf: map<Id, int>)
  {
    && (forall x | x in viewOf :: 0 <= viewOf[x] < |views| && views[viewOf[x]].item == x)
    && (forall k | 0 <= k < |views| :: views[k].item in viewOf && viewOf[views[k].item] == k)
  }

  /** No view but the selected item's is drawn as selected. */
  ghost predicate AtMostSelected(views: seq<ItemView>, viewOf: map<Id, int>, selected: Option<Id>)
  {
    forall k | 0 <= k < |views| && views[k].isSelected ::
      selected.Some? && selected.value in viewOf && viewOf[selected.value] == k
  }

  /** `createApp`'s layout callback, run over the walk `ps`: each call pushes
      a view for its item, selected when the item is `selected`, and points
      the item's `view` field at it.  On a walk that places no item twice,
      the array holds one view per placement in walk order. */
  method CreateViews(selected: Option<Id>, ps: seq<Placement>) returns (views: seq<ItemView>, viewOf: map<Id, int>)
    requires Distinct(ps)
    ensures |views| == |ps|
    ensures forall k | 0 <= k < |ps| ::
      views[k] == ItemView(ps[k].gridX, ps[k].gridY, ps[k].item, selected == Some(ps[k].item))
    ensures viewOf.Keys == Items(ps)
    ensures Owned(views, viewOf)
    ensures AtMostSelected(views, viewOf, selected)
  {
    views, viewOf := [], map[];
    var i := 0;
    while i < |ps|
      invariant 0 <= i <= |ps| && |views| == i
      invariant forall k | 0 <= k < i ::
        views[k] == ItemView(ps[k].gridX, ps[k].gridY, ps[k].item, selected == Some(ps[k].item))
      invariant forall x | x in viewOf :: exists k | 0 <= k < i :: ps[k].item == x
      invariant forall k | 0 <= k < i :: ps[k].item in viewOf && viewOf[ps[k].item] == k
      invariant forall x | x in viewOf :: 0 <= viewOf[x] < i
    {
      var p := ps[i];
      views := views + [ItemView(p.gridX, p.gridY, p.item, selected == Some(p.item))];
      viewOf := viewOf[p.item := i];
      i := i + 1;
    }
    forall x | x in viewOf ensures views[viewOf[x]].item == x {
      var k :| 0 <= k < i && ps[k].item == x;
    }
  }

  /** `changeSelection(app, target)` on the views and the selected item:
      nothing for `undefined`; otherwise the selected item's view, if any, is
      cleared, and the target becomes selected only if it has a view. */
  function Selection(views: seq<ItemView>, viewOf: map<Id, int>, selected: Option<Id>, target: Option<Id>)
    : (r: (seq<ItemView>, Option<Id>))
    requires forall x | x in viewOf :: 0 <= viewOf[x] < |views|
    ensures |r.0| == |views|
  {
    match target
    case None => (views, selected)
    case Some(t) =>
      var cleared := if selected.Some? && selected.value in viewOf then
          var x: Id := selected.value;
          assert x in viewOf;
          var k := viewOf[x];
          views[k := views[k].(isSelected := false)]
        else views;
      assert |cleared| == |views|;
      if t in viewOf then
        assert 0 <= viewOf[t] < |cleared|;
        (cleared[viewOf[t] := cleared[viewOf[t]].(isSelected := true)], target)
      else (cleared, selected)
  }

  /** `changeSelection` keeps at most one view selected, the selected item's;
      a target with a view becomes the selected item and its view the one
      drawn as selected; a target without a view leaves the selected item as
      it was with no view drawn as selected.  No view changes item or cell. */
  lemma SelectionOne(views: seq<ItemView>, viewOf: map<Id, int>, selected: Option<Id>, target: Option<Id>)
    requires Owned(views, viewOf) && AtMostSelected(views, viewOf, selected)
    ensures var (v, s) := Selection(views, viewOf, selected, target);
      && Owned(v, viewOf) && AtMostSelected(v, viewOf, s)
      && (forall k | 0 <= k < |views| :: v[k].item == views[k].item && v[k].gridX == views[k].gridX && v[k].gridY == views[k].gridY)
      && (target.Some? && target.value in viewOf ==>
            s == target && forall k | 0 <= k < |v| :: v[k].isSelected <==> k == viewOf[target.value])
      && (target.Some? && target.value !in viewOf ==> s == selected && forall k | 0 <= k < |v| :: !v[k].isSelected)
      && (target.None? ==> v == views && s == selected)
  {
    if target.Some? {
      var t: Id := target.value;
      var cleared := if selected.Some? && selected.value in viewOf then
          var x: Id := selected.value;
          views[viewOf[x] := views[viewOf[x]].(isSelected := false)]
        else views;
      assert |cleared| == |views|;
      forall k | 0 <= k < |cleared|
        ensures !cleared[k].isSelected
        ensures cleared[k].item == views[k].item && cleared[k].gridX == views[k].gridX && cleared[k].gridY == views[k].gridY
      {
        if views[k].isSelected {
          var x: Id := selected.value;
          assert x in viewOf && viewOf[x] == k;
        }
      }
      if t in viewOf {
        assert Selection(views, viewOf, selected, target) == (cleared[viewOf[t] := cleared[viewOf[t]].(isSelected := true)], target);
      } else {
        assert Selection(views, viewOf, selected, target) == (cleared, selected);
      }
    }
  }

  /** `AppState`, mutated in place by the actions. */
  class App {
    var tree: Forest
    var root: Id
    /** `app.views` */
    var views: seq<ItemView>
    /** The `view` field of every item that has one. */
    var viewOf: map<Id, int>
    var selected: Option<Id>

    ghost predicate Valid()
      reads this
    {
      && tree.Valid() && root in tree.children && IsRoot(tree, root)
      && (selected.Some? ==> selected.value in tree.children)
      && Owned(views, viewOf) && AtMostSelected(views, viewOf, selected)
    }

    /** `createApp(items)`: the root is `mapPartialItem({ title: "Root",
        children: items })`, with ids from 0; its first child, if any, is
        selected; one view per placed item is pushed, in layout order. */
    constructor (items: seq<Partial>)
      ensures Valid()
      ensures tree == MapPartialItem(First, Record(Some("Root"), None, items), 0) && root == 0
      ensures selected == if items == [] then None else Some(tree.children[0][0])
      ensures var ps := CoreApp.LayoutRoot(tree, root);
        && |views| == |ps| && viewOf.Keys == Items(ps)
        && forall k | 0 <= k < |ps| ::
             views[k] == ItemView(ps[k].gridX, ps[k].gridY, ps[k].item, selected == Some(ps[k].item))
    {
      var f := MapPartialItem(First, Record(Some("Root"), None, items), 0);
      RootTree(First, items, f);
      var sel := if items == [] then None else Some(f.children[0][0]);
      var ps := CoreApp.LayoutRoot(f, 0);
      CoreApp.LayoutRootDistinct(f, 0);
      var vs, vo := CreateViews(sel, ps);
      assert sel.Some? ==> sel.value in f.children && sel.value in vo by {
        if sel.Some? {
          CoreApp.FirstChildPlaced(f, 0);
        }
      }
      tree, root, views, viewOf, selected := f, 0, vs, vo, sel;
    }

    /** `changeSelection(app, target)`. */
    method ChangeSelection(target: Option<Id>)
      requires Valid()
      requires target.Some? ==> target.value in tree.children
      modifies this
      ensures Valid()
      ensures tree == old(tree) && root == old(root) && viewOf == old(viewOf)
      ensures (views, selected) == Selection(old(views), viewOf, old(selected), target)
    {
      if target.None? {
        return;
      }
      if selected.Some? && selected.value in viewOf {
        var x: Id := selected.value;
        assert x in viewOf;
        var k := viewOf[x];
        views := views[k := views[k].(isSelected := false)];
      }
      assert |views| == |old(views)|;
      if target.value in viewOf {
        var x: Id := target.value;
        assert x in viewOf;
        var k := viewOf[x];
        views := views[k := views[k].(isSelected := true)];
        selected := target;
      }
      SelectionOne(old(views), viewOf, old(selected), target);
    }

    /** `moveDown`: selects the item below the selected one; with nothing
        below, nothing changes. */
    method MoveDown()
      requires Valid()
      modifies this
      ensures Valid()
      ensures tree == old(tree) && root == old(root) && viewOf == old(viewOf)
      ensures old(selected).None? ==> views == old(views) && selected == old(selected)
      ensures old(selected).Some? ==>
        (views, selected) == Selection(old(views), viewOf, old(selected), CoreApp.AppItemBelow(tree, old(selected).value))
    {
      if selected.Some? {
        var below := CoreApp.AppItemBelow(tree, selected.value);
        if below.Some? {
          CoreApp.AppItemBelowFound(tree, selected.value);
        }
        ChangeSelection(below);
      }
    }
  }
}
