/**
 * Structural moves of the newest engine (src/core/app.movement.ts): every
 * move removes the item from its parent's `children` and inserts it again,
 * either among the same siblings or under another item.  The pure functions
 * say what each move leaves behind; the methods perform the same steps on a
 * `Store` in place.
 */
module Movement {
  import opened Wrappers
  import opened Arrays
  import opened Tree

  /** `canItemBeMoved`: anything but the focused item. */
  predicate CanItemBeMoved(focused: Id, item: Id)
  {
    focused != item
  }

  /** `canItemBeMovedLeft`: movable and with a parent. */
  predicate CanItemBeMovedLeft(f: Forest, focused: Id, item: Id)
  {
    CanItemBeMoved(focused, item) && item in f.parent
  }

  /** `moveItemUp`: out at its index, back in one earlier. */
  function MovedUp(f: Forest, focused: Id, item: Id): (g: Forest)
    requires f.Linked()
    ensures g.children.Keys == f.children.Keys && g.title == f.title
    ensures focused == item || item !in f.parent ==> g == f
  {
    if item in f.parent && CanItemBeMoved(focused, item) then
      var p := f.parent[item];
      var index := IndexOf(f.children[p], item);
      if index > 0 then
        ChildAddedAt(ChildRemovedAt(f, p, index), p, item, index - 1)
      else f
    else f
  }

  /** `moveItemDown`: out at its index, back in one later (splice clamps the
      insertion of a last child to the end). */
  function MovedDown(f: Forest, focused: Id, item: Id): (g: Forest)
    requires f.Linked()
    ensures g.children.Keys == f.children.Keys && g.title == f.title
    ensures focused == item || item !in f.parent ==> g == f
  {
    if item in f.parent && CanItemBeMoved(focused, item) then
      var p := f.parent[item];
      var index := IndexOf(f.children[p], item);
      if index <= |f.children[p]| - 1 then
        ChildAddedAt(ChildRemovedAt(f, p, index), p, item, index + 1)
      else f
    else f
  }

  /** `moveItemRight`: out of its parent, in as the last child of the previous
      sibling. */
  function MovedRight(f: Forest, focused: Id, item: Id): (g: Forest)
    requires f.Linked()
    ensures g.children.Keys == f.children.Keys && g.title == f.title
    ensures focused == item || item !in f.parent ==> g == f
  {
    if item in f.parent && CanItemBeMoved(focused, item) then
      var p := f.parent[item];
      var index := IndexOf(f.children[p], item);
      if index > 0 then
        var prevItem := f.children[p][index - 1];
        var g := ChildRemovedAt(f, p, index);
        ChildAddedAt(g, prevItem, item, |g.children[prevItem]|)
      else f
    else f
  }

  /** `moveItemLeft`: out of its parent, into the grandparent right after the
      former parent. */
  function MovedLeft(f: Forest, focused: Id, item: Id): (g: Forest)
    requires f.Linked()
    ensures g.children.Keys == f.children.Keys && g.title == f.title
    ensures focused == item || item !in f.parent ==> g == f
  {
    if item in f.parent && CanItemBeMovedLeft(f, focused, item) then
      var p := f.parent[item];
      if p in f.parent then
        var parentOfParent := f.parent[p];
        var parentIndex := IndexOf(f.children[parentOfParent], p);
        ChildAddedAt(ChildRemoved(f, p, item), parentOfParent, item, parentIndex + 1)
      else f
    else f
  }

  // ---------------------------------------------------------------------------
  // The moves on the store
  // ---------------------------------------------------------------------------

  method MoveItemUp(s: Store, focused: Id, item: Id)
    requires s.Value().Linked()
    modifies s
    ensures s.Value() == MovedUp(old(s.Value()), focused, item)
  {
    if item in s.parent && CanItemBeMoved(focused, item) {
      var p := s.parent[item];
      var index := IndexOf(s.children[p], item);
      if index > 0 {
        s.RemoveChildAt(p, index);
        s.AddChildAt(p, item, index - 1);
      }
    }
  }

  method MoveItemDown(s: Store, focused: Id, item: Id)
    requires s.Value().Linked()
    modifies s
    ensures s.Value() == MovedDown(old(s.Value()), focused, item)
  {
    if item in s.parent && CanItemBeMoved(focused, item) {
      var p := s.parent[item];
      var index := IndexOf(s.children[p], item);
      if index <= |s.children[p]| - 1 {
        s.RemoveChildAt(p, index);
        s.AddChildAt(p, item, index + 1);
      }
    }
  }

  method MoveItemRight(s: Store, focused: Id, item: Id)
    requires s.Value().Linked()
    modifies s
    ensures s.Value() == MovedRight(old(s.Value()), focused, item)
  {
    if item in s.parent && CanItemBeMoved(focused, item) {
      var p := s.parent[item];
      var index := IndexOf(s.children[p], item);
      if index > 0 {
        var prevItem := s.children[p][index - 1];
        s.RemoveChildAt(p, index);
        s.AddChildAt(prevItem, item, |s.children[prevItem]|);
      }
    }
  }

  method MoveItemLeft(s: Store, focused: Id, item: Id)
    requires s.Value().Linked()
    modifies s
    ensures s.Value() == MovedLeft(old(s.Value()), focused, item)
  {
    if item in s.parent && CanItemBeMovedLeft(s.Value(), focused, item) {
      var p := s.parent[item];
      if p in s.parent {
        var parentOfParent := s.parent[p];
        var parentIndex := IndexOf(s.children[parentOfParent], p);
        s.RemoveChild(p, item);
        s.AddChildAt(parentOfParent, item, parentIndex + 1);
      }
    }
  }

  // ---------------------------------------------------------------------------
  // What the moves preserve
  // ---------------------------------------------------------------------------

  /** Moving up keeps the table valid, and an attached table attached. */
  lemma MovedUpValid(f: Forest, focused: Id, item: Id)
    requires f.Valid()
    ensures MovedUp(f, focused, item).Valid()
    ensures f.Attached() ==> MovedUp(f, focused, item).Attached()
  {
    if item in f.parent && CanItemBeMoved(focused, item) {
      var p := f.parent[item];
      var index := IndexOf(f.children[p], item);
      if index > 0 {
        assert MovedUp(f, focused, item) == ChildAddedAt(ChildRemovedAt(f, p, index), p, item, index - 1);
        ParentLevel(f, item);
        NotBelowLower(f, p, item);
        ReinsertValid(f, p, index, p, index - 1);
      }
    }
  }

  /** Moving down keeps the table valid. An item missing from its parent's
      children still moves: splice(-1, 1) drops the parent's last child. */
  lemma MovedDownValid(f: Forest, focused: Id, item: Id)
    requires f.Valid()
    ensures MovedDown(f, focused, item).Valid()
  {
    if item in f.parent && CanItemBeMoved(focused, item) {
      var p := f.parent[item];
      var s := f.children[p];
      var index := IndexOf(s, item);
      var g := ChildRemovedAt(f, p, index);
      assert MovedDown(f, focused, item) == ChildAddedAt(g, p, item, index + 1);
      ParentLevel(f, item);
      NotBelowLower(f, p, item);
      if index >= 0 {
        ReinsertValid(f, p, index, p, index + 1);
      } else {
        DownDetachedValid(f, p, item);
      }
    }
  }

  /** The case of `MovedDownValid` where the item is missing from its
      parent's children. */
  lemma DownDetachedValid(f: Forest, p: Id, item: Id)
    requires f.Valid() && item in f.parent && f.parent[item] == p && item !in f.children[p]
    ensures ChildAddedAt(ChildRemovedAt(f, p, -1), p, item, 0).Valid()
  {
    assert f.Detached(item);
    var g := ChildRemovedAt(f, p, -1);
    RemoveChildAtValid(f, p, -1);
    RemoveChildAtDetaches(f, p, -1, item);
    ParentLevel(f, item);
    NotBelowLower(f, p, item);
    InSubtreeSameParents(f, g, p, item);
    AddChildAtValid(g, p, item, 0);
  }

  /** Moving down keeps an attached table attached. */
  lemma MovedDownAttached(f: Forest, focused: Id, item: Id)
    requires f.Valid() && f.Attached()
    ensures MovedDown(f, focused, item).Attached()
  {
    if item in f.parent && CanItemBeMoved(focused, item) {
      var p := f.parent[item];
      var s := f.children[p];
      assert item in s;
      var index := IndexOf(s, item);
      assert MovedDown(f, focused, item) == ChildAddedAt(ChildRemovedAt(f, p, index), p, item, index + 1);
      ParentLevel(f, item);
      NotBelowLower(f, p, item);
      ReinsertValid(f, p, index, p, index + 1);
    }
  }

  /** Moving right keeps the table valid, and an attached table attached. */
  lemma MovedRightValid(f: Forest, focused: Id, item: Id)
    requires f.Valid()
    ensures MovedRight(f, focused, item).Valid()
    ensures f.Attached() ==> MovedRight(f, focused, item).Attached()
  {
    if item in f.parent && CanItemBeMoved(focused, item) {
      var p := f.parent[item];
      var s := f.children[p];
      var index := IndexOf(s, item);
      if index > 0 {
        var prevItem := s[index - 1];
        ChildLevel(f, p, prevItem);
        ChildLevel(f, p, item);
        assert prevItem != item;
        if InSubtree(f, prevItem, item) {
          NotBelowLower(f, p, item);
        }
        var g := ChildRemovedAt(f, p, index);
        ReinsertValid(f, p, index, prevItem, |g.children[prevItem]|);
      }
    }
  }

  /** Moving left keeps the table valid, and an attached table attached. */
  lemma MovedLeftValid(f: Forest, focused: Id, item: Id)
    requires f.Valid()
    ensures MovedLeft(f, focused, item).Valid()
    ensures f.Attached() ==> MovedLeft(f, focused, item).Attached()
  {
    if item in f.parent && CanItemBeMovedLeft(f, focused, item) {
      var p := f.parent[item];
      if p in f.parent {
        var pp := f.parent[p];
        var parentIndex := IndexOf(f.children[pp], p);
        ParentLevel(f, item);
        ParentLevel(f, p);
        NotBelowLower(f, pp, item);
        assert MovedLeft(f, focused, item) == ChildAddedAt(ChildRemoved(f, p, item), pp, item, parentIndex + 1);
        FilteredReinsertValid(f, p, item, pp, parentIndex + 1);
        if f.Attached() {
          FilteredReinsertAttached(f, p, item, pp, parentIndex + 1);
        }
      }
    }
  }

  /** Taking the entry at position `k` of `p`'s children out and inserting it
      under `q`, which is not inside its subtree, keeps the table valid, and an
      attached table attached. */
  lemma ReinsertValid(f: Forest, p: Id, k: nat, q: Id, index: int)
    requires f.Valid() && p in f.children && k < |f.children[p]| && q in f.children
    requires !InSubtree(f, q, f.children[p][k])
    ensures var item := f.children[p][k];
            var g := ChildAddedAt(ChildRemovedAt(f, p, k), q, item, index);
            g.Valid() && (f.Attached() ==> g.Attached())
  {
    var item := f.children[p][k];
    var g := ChildRemovedAt(f, p, k);
    ChildLevel(f, p, item);
    RemoveChildAtValid(f, p, k);
    RemoveChildAtDetaches(f, p, k, item);
    InSubtreeSameParents(f, g, q, item);
    AddChildAtValid(g, q, item, index);
    if f.Attached() {
      RemoveChildAtAttached(f, p, k);
      AddChildAtAttached(g, q, item, index);
    }
  }

  /** Filtering `item` out of its parent's children and inserting it under
      `q`, which is not inside its subtree, keeps the table valid. */
  lemma FilteredReinsertValid(f: Forest, p: Id, item: Id, q: Id, index: int)
    requires f.Valid() && item in f.parent && f.parent[item] == p && q in f.children
    requires !InSubtree(f, q, item)
    ensures ChildAddedAt(ChildRemoved(f, p, item), q, item, index).Valid()
  {
    var g := ChildRemoved(f, p, item);
    RemoveChildValid(f, p, item);
    InSubtreeSameParents(f, g, q, item);
    AddChildAtValid(g, q, item, index);
  }

  /** The same move keeps an attached table attached. */
  lemma FilteredReinsertAttached(f: Forest, p: Id, item: Id, q: Id, index: int)
    requires f.Valid() && f.Attached() && item in f.parent && f.parent[item] == p && q in f.children
    requires !InSubtree(f, q, item)
    ensures ChildAddedAt(ChildRemoved(f, p, item), q, item, index).Attached()
  {
    var g := ChildRemoved(f, p, item);
    RemoveChildValid(f, p, item);
    RemoveChildAttached(f, p, item);
    AddChildAtAttached(g, q, item, index);
  }

  // ---------------------------------------------------------------------------
  // The shape of each move, for an item at position `k` among its siblings
  // ---------------------------------------------------------------------------

  /** What taking the entry at `k` out of `p`'s children and inserting `item`
      under `q` leaves behind. */
  lemma Reinserted(f: Forest, p: Id, k: nat, q: Id, item: Id, index: int)
    requires p in f.children && q in f.children
    ensures var rest := RemoveAt(f.children[p], k);
            ChildAddedAt(ChildRemovedAt(f, p, k), q, item, index)
            == Forest(f.children[p := rest][q := InsertAt(if q == p then rest else f.children[q], index, item)],
                      f.parent[item := q], f.isOpen[p := |rest| != 0][q := true], f.title)
  {
  }

  /** Taking an item out and putting it back under the same parent changes
      only that parent's list, and opens it. */
  lemma ReinsertedInPlace(f: Forest, p: Id, k: nat, item: Id, index: int)
    requires p in f.children && item in f.parent && f.parent[item] == p
    ensures ChildAddedAt(ChildRemovedAt(f, p, k), p, item, index)
            == Forest(f.children[p := InsertAt(RemoveAt(f.children[p], k), index, item)],
                      f.parent, f.isOpen[p := true], f.title)
  {
    var rest := RemoveAt(f.children[p], k);
    Reinserted(f, p, k, p, item, index);
    Overwrite(f.children, p, rest, InsertAt(rest, index, item));
    Overwrite(f.isOpen, p, |rest| != 0, true);
    UpdateSame(f.parent, item);
  }

  /** What filtering `item` out of `p`'s children and inserting it under `q`
      leaves behind. */
  lemma FilteredReinserted(f: Forest, p: Id, q: Id, item: Id, index: int)
    requires p in f.children && q in f.children
    ensures var rest := Without(f.children[p], item);
            ChildAddedAt(ChildRemoved(f, p, item), q, item, index)
            == Forest(f.children[p := rest][q := InsertAt(if q == p then rest else f.children[q], index, item)],
                      f.parent[item := q], f.isOpen[p := |rest| != 0][q := true], f.title)
  {
  }

  /** Moving up swaps the item with its previous sibling and opens the parent;
      a first child stays where it is. */
  lemma MovedUpShape(f: Forest, focused: Id, item: Id, k: nat)
    requires f.Linked() && item in f.parent && focused != item
    requires var s := f.children[f.parent[item]]; NoDup(s) && k < |s| && s[k] == item
    ensures var p := f.parent[item];
            var s := f.children[p];
            var g := MovedUp(f, focused, item);
            && (k == 0 ==> g == f)
            && (k > 0 ==>
                  && g.children == f.children[p := s[..k - 1] + [item, s[k - 1]] + s[k + 1..]]
                  && g.parent == f.parent
                  && g.isOpen == f.isOpen[p := true])
  {
    var p := f.parent[item];
    var s := f.children[p];
    IndexOfNoDup(s, k);
    if k > 0 {
      assert MovedUp(f, focused, item) == ChildAddedAt(ChildRemovedAt(f, p, k), p, item, k - 1);
      ReinsertedInPlace(f, p, k, item, k - 1);
      ReinsertEarlier(s, k);
    }
  }

  /** Moving down swaps the item with its next sibling and opens the parent;
      a last child stays last. */
  lemma MovedDownShape(f: Forest, focused: Id, item: Id, k: nat)
    requires f.Linked() && item in f.parent && focused != item
    requires var s := f.children[f.parent[item]]; NoDup(s) && k < |s| && s[k] == item
    ensures var p := f.parent[item];
            var s := f.children[p];
            var g := MovedDown(f, focused, item);
            && (k + 1 < |s| ==> g.children == f.children[p := s[..k] + [s[k + 1], item] + s[k + 2..]])
            && (k + 1 == |s| ==> g.children == f.children)
            && g.parent == f.parent
            && g.isOpen == f.isOpen[p := true]
  {
    var p := f.parent[item];
    var s := f.children[p];
    IndexOfNoDup(s, k);
    assert MovedDown(f, focused, item) == ChildAddedAt(ChildRemovedAt(f, p, k), p, item, k + 1);
    ReinsertedInPlace(f, p, k, item, k + 1);
    ReinsertLater(s, k);
    if k + 1 == |s| {
      UpdateSame(f.children, p);
    }
  }

  /** Moving right makes the item the last child of its previous sibling and
      leaves that sibling open; a first child stays where it is. */
  lemma MovedRightShape(f: Forest, focused: Id, item: Id, k: nat)
    requires f.Valid() && item in f.parent && focused != item
    requires var s := f.children[f.parent[item]]; k < |s| && s[k] == item
    ensures var p := f.parent[item];
            var s := f.children[p];
            var g := MovedRight(f, focused, item);
            && (k == 0 ==> g == f)
            && (k > 0 ==>
                  var prev := s[k - 1];
                  && prev in f.children && prev != p
                  && g.children == f.children[p := s[..k] + s[k + 1..]][prev := f.children[prev] + [item]]
                  && g.parent == f.parent[item := prev]
                  && g.isOpen == f.isOpen[p := |s| > 1][prev := true])
  {
    var p := f.parent[item];
    var s := f.children[p];
    IndexOfNoDup(s, k);
    if k > 0 {
      var prev := s[k - 1];
      ChildLevel(f, p, prev);
      ParentNotSelf(f, prev);
      var t := f.children[prev];
      var rest := RemoveAt(s, k);
      assert MovedRight(f, focused, item) == ChildAddedAt(ChildRemovedAt(f, p, k), prev, item, |t|);
      Reinserted(f, p, k, prev, item, |t|);
      InsertAtEnd(t, item);
    }
  }

  /** Moving left re-inserts the item into its grandparent right after its
      former parent; under a root parent it stays where it is. */
  lemma MovedLeftShape(f: Forest, focused: Id, item: Id, k: nat, j: nat)
    requires f.Linked() && item in f.parent && focused != item
    requires var s := f.children[f.parent[item]]; NoDup(s) && k < |s| && s[k] == item
    requires var p := f.parent[item];
             p in f.parent ==> var t := f.children[f.parent[p]];
                               f.parent[p] != p && NoDup(t) && j < |t| && t[j] == p
    ensures var p := f.parent[item];
            var s := f.children[p];
            var g := MovedLeft(f, focused, item);
            && (p !in f.parent ==> g == f)
            && (p in f.parent ==>
                  var pp := f.parent[p];
                  var t := f.children[pp];
                  && pp != p
                  && g.children == f.children[p := s[..k] + s[k + 1..]][pp := t[..j + 1] + [item] + t[j + 1..]]
                  && g.parent == f.parent[item := pp]
                  && g.isOpen == f.isOpen[p := |s| > 1][pp := true])
  {
    var p := f.parent[item];
    var s := f.children[p];
    if p in f.parent {
      var pp := f.parent[p];
      var t := f.children[pp];
      IndexOfNoDup(t, j);
      assert MovedLeft(f, focused, item) == ChildAddedAt(ChildRemoved(f, p, item), pp, item, j + 1);
      FilteredReinserted(f, p, pp, item, j + 1);
      assert Without(s, item) == s[..k] + s[k + 1..] by {
        WithoutSingle(s, item, k);
      }
      assert InsertAt(t, j + 1, item) == t[..j + 1] + [item] + t[j + 1..] by {
        InsertAtInside(t, j + 1, item);
      }
    }
  }

  /** No item is its own parent. */
  lemma ParentNotSelf(f: Forest, x: Id)
    requires f.Valid() && x in f.parent
    ensures f.parent[x] != x
  {
    ParentLevel(f, x);
  }

  // ---------------------------------------------------------------------------
  // Moves that undo each other
  // ---------------------------------------------------------------------------

  /** Moving an item up and then down restores its siblings' order; only the
      parent's open flag may have changed, to open. */
  lemma UpThenDown(f: Forest, focused: Id, item: Id, k: nat)
    requires f.Valid() && item in f.parent && focused != item
    requires var s := f.children[f.parent[item]]; 0 < k < |s| && s[k] == item
    ensures MovedUp(f, focused, item).Linked()
            && MovedDown(MovedUp(f, focused, item), focused, item)
               == f.(isOpen := f.isOpen[f.parent[item] := true])
  {
    var p := f.parent[item];
    var s := f.children[p];
    var s' := s[..k - 1] + [item, s[k - 1]] + s[k + 1..];
    var g := MovedUp(f, focused, item);
    assert g == Forest(f.children[p := s'], f.parent, f.isOpen[p := true], f.title) by {
      MovedUpShape(f, focused, item, k);
    }
    assert g.Valid() by {
      MovedUpValid(f, focused, item);
    }
    SwapTwice(s, k);
    assert s'[k - 1] == item && g.parent[item] == p;
    MovedDownShape(g, focused, item, k - 1);
    UpdateBack(f.children, p, s');
  }

  /** Moving an item right and then left puts it back at its position; only
      the open flags of the two parents involved may have changed. */
  lemma RightThenLeft(f: Forest, focused: Id, item: Id, k: nat)
    requires f.Valid() && item in f.parent && focused != item
    requires var s := f.children[f.parent[item]]; 0 < k < |s| && s[k] == item
    ensures var p := f.parent[item];
            var prev := f.children[p][k - 1];
            prev in f.children
            && MovedRight(f, focused, item).Linked()
            && MovedLeft(MovedRight(f, focused, item), focused, item)
               == f.(isOpen := f.isOpen[p := true][prev := |f.children[prev]| > 0])
  {
    var p := f.parent[item];
    var s := f.children[p];
    var prev := s[k - 1];
    var t := f.children[prev];
    var rest := s[..k] + s[k + 1..];
    ChildLevel(f, p, prev);
    ParentNotSelf(f, prev);
    assert item !in t;
    RightThenLeftSteps(f, focused, item, k);
    var h := MovedLeft(MovedRight(f, focused, item), focused, item);
    assert h.children == f.children by {
      RestoreTwo(f.children, p, prev, rest, t + [item]);
    }
    assert h.isOpen == f.isOpen[p := true][prev := |t| > 0] by {
      UpdateTwice(f.isOpen, p, prev, |s| > 1, true, |t| > 0, true);
    }
    assert h.parent == f.parent by {
      UpdateBack(f.parent, item, prev);
    }
  }

  /** The two moves of `RightThenLeft`, one after the other: moving right
      appends the item to the previous sibling, and moving left puts the
      previous sibling's list and the parent's list back. */
  lemma RightThenLeftSteps(f: Forest, focused: Id, item: Id, k: nat)
    requires f.Valid() && item in f.parent && focused != item
    requires var s := f.children[f.parent[item]]; 0 < k < |s| && s[k] == item
    ensures var p := f.parent[item];
            var s := f.children[p];
            var prev := s[k - 1];
            var t := f.children[prev];
            var g := MovedRight(f, focused, item);
            && prev in f.children && prev != p && item !in t
            && g.Linked() && g.Valid()
            && MovedLeft(g, focused, item)
               == Forest(f.children[p := s[..k] + s[k + 1..]][prev := t + [item]][prev := t][p := s],
                         f.parent[item := prev][item := p],
                         f.isOpen[p := |s| > 1][prev := true][prev := |t| > 0][p := true], f.title)
  {
    var p := f.parent[item];
    var s := f.children[p];
    var prev := s[k - 1];
    var t := f.children[prev];
    ChildLevel(f, p, prev);
    ParentNotSelf(f, prev);
    assert item !in t;
    var g := MovedRight(f, focused, item);
    MovedRightShape(f, focused, item, k);
    MovedRightValid(f, focused, item);
    LeftOfAppended(g, focused, item, p, prev, s, t, k);
  }

  /** Moving left an item that was appended to `prev`, a child of `p` taken
      out of `p` at position `k`, restores both lists. */
  lemma LeftOfAppended(g: Forest, focused: Id, item: Id, p: Id, prev: Id, s: seq<Id>, t: seq<Id>, k: nat)
    requires g.Linked() && g.Valid() && focused != item && p != prev && p in g.children && prev in g.children
    requires item in g.parent && g.parent[item] == prev && prev in g.parent && g.parent[prev] == p
    requires 0 < k < |s| && s[k - 1] == prev && s[k] == item
    requires g.children[prev] == t + [item] && g.children[p] == s[..k] + s[k + 1..]
    ensures MovedLeft(g, focused, item)
            == Forest(g.children[prev := t][p := s], g.parent[item := p],
                      g.isOpen[prev := |t| > 0][p := true], g.title)
  {
    PutBack(s, k);
    DropAppended(t, item);
    assert g.children[prev][|t|] == item && g.children[p][k - 1] == prev;
    MovedLeftShape(g, focused, item, |t|, k - 1);
  }
}
