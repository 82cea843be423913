/**
 * The tree store and navigator of the newest engine (src/core/tree.ts).
 *
 * Items are objects with identity in the source; here an item is an `Id` and
 * the fields of all items form a table (`Forest`): `children`, `parent`,
 * `isOpen` and `title`, each keyed by the item.  The class `Store` holds that
 * table and mutates it in place, as `addChildAt`, `removeChildAt` and
 * `removeChild` do; the read-only queries are functions over a `Forest` value.
 */
module Tree {
  import opened Wrappers
  import opened Arrays

  type Id = int

  /** A witness that the parent links contain no cycle: every item has a level,
      a child's level exceeds its parent's, and all levels are bounded.
      It only serves the termination of walks over the tree. */
  datatype Rank = Rank(level: map<Id, nat>, bound: nat)

  /** The fields of every item, keyed by the item. */
  datatype Forest = Forest(
    children: map<Id, seq<Id>>,
    parent: map<Id, Id>,
    isOpen: map<Id, bool>,
    title: map<Id, string>)
  {
    /** The table is consistent: every item has all fields, links point at
        items, a child's `parent` is the item whose `children` hold it, and no
        `children` array holds an item twice. */
    ghost predicate WellFormed()
    {
      && Linked()
      && isOpen.Keys == children.Keys
      && title.Keys == children.Keys
      && (forall x | x in children :: NoDup(children[x]))
    }

    /** Links point at items, and a child's `parent` is the item whose
        `children` hold it. */
    ghost predicate Linked()
    {
      && (forall x | x in parent :: x in children && parent[x] in children)
      && (forall x, c | x in children && c in children[x] :: c in parent && parent[c] == x)
    }

    ghost predicate RankedBy(r: Rank)
    {
      && (forall x | x in children :: x in r.level && r.level[x] <= r.bound)
      && (forall x | x in parent :: x in r.level && parent[x] in r.level && r.level[parent[x]] < r.level[x])
    }

    /** Well formed and free of cycles through `parent`. */
    ghost predicate Valid()
    {
      WellFormed() && exists r :: RankedBy(r)
    }

    ghost function TheRank(): (r: Rank)
      requires Valid()
      ensures RankedBy(r)
    {
      var r :| RankedBy(r); r
    }

    ghost function Level(x: Id): nat
      requires Valid() && x in children
    {
      TheRank().level[x]
    }

    ghost function Bound(): nat
      requires Valid()
    {
      TheRank().bound
    }

    /** Every item that has a parent is one of that parent's children. Removing
        an item leaves its `parent` set, so this fails for removed items. */
    ghost predicate Attached()
    {
      forall x | x in parent :: parent[x] in children && x in children[parent[x]]
    }

    /** `Attached` for every item but `item`, which is on its way elsewhere. */
    ghost predicate AttachedExcept(item: Id)
    {
      forall x | x in parent && x != item :: parent[x] in children && x in children[parent[x]]
    }

    /** No `children` array holds `item`. */
    ghost predicate Detached(item: Id)
    {
      forall y | y in children :: item !in children[y]
    }

    /** `updateIsOpenFlag` has run on every item: open exactly when it has children. */
    ghost predicate OpenIffChildren()
    {
      forall x | x in children && x in isOpen :: isOpen[x] == (|children[x]| > 0)
    }
  }

  /** The levels of an item and of its parent. */
  lemma ParentLevel(f: Forest, x: Id)
    requires f.Valid() && x in f.parent
    ensures x in f.children && f.parent[x] in f.children && f.Level(f.parent[x]) < f.Level(x) <= f.Bound()
  {
    var r := f.TheRank();
    assert r.level[f.parent[x]] < r.level[x];
  }

  /** The levels of a parent and of its child. */
  lemma ChildLevel(f: Forest, x: Id, c: Id)
    requires f.Valid() && x in f.children && c in f.children[x]
    ensures c in f.children && f.parent[c] == x && f.Level(x) < f.Level(c) <= f.Bound()
  {
    ParentLevel(f, c);
  }

  /** The levels of all children of an item. */
  lemma ChildrenLevels(f: Forest, x: Id)
    requires f.Valid() && x in f.children
    ensures forall c | c in f.children[x] :: c in f.children && f.Level(x) < f.Level(c)
  {
    forall c | c in f.children[x] ensures c in f.children && f.Level(x) < f.Level(c) {
      ChildLevel(f, x, c);
    }
  }

  /** What a walk down the `children` lists needs: every item has an open
      flag and a rank, bounded, that grows from an item to each of its children. */
  ghost predicate Walkable(f: Forest, r: Rank)
  {
    && (forall x | x in f.children :: x in f.isOpen && x in r.level && r.level[x] <= r.bound)
    && (forall x, c | x in f.children && c in f.children[x] ::
          c in f.children && x in r.level && c in r.level && r.level[x] < r.level[c])
  }

  /** A valid table can be walked with its rank. */
  lemma ValidWalkable(f: Forest)
    requires f.Valid()
    ensures Walkable(f, f.TheRank())
  {
    forall x, c | x in f.children && c in f.children[x]
      ensures c in f.children && f.Level(x) < f.Level(c)
    {
      ChildLevel(f, x, c);
    }
  }

  /** Writing a map's own value back over an update restores the map. */
  lemma UpdateBack<K, V>(m: map<K, V>, k: K, v: V)
    requires k in m
    ensures m[k := v][k := m[k]] == m
  {
  }

  /** Writing a key's own value back changes nothing. */
  lemma UpdateSame<K, V>(m: map<K, V>, k: K)
    requires k in m
    ensures m[k := m[k]] == m
  {
  }

  /** A second write to the same key hides the first. */
  lemma Overwrite<K, V>(m: map<K, V>, k: K, v: V, w: V)
    ensures m[k := v][k := w] == m[k := w]
  {
  }

  /** Two updates at distinct keys, each overwritten later, leave only the
      later values. */
  lemma UpdateTwice<K, V>(m: map<K, V>, a: K, b: K, x: V, y: V, z: V, w: V)
    requires a != b
    ensures m[a := x][b := y][b := z][a := w] == m[a := w][b := z]
  {
  }

  /** Two updates at distinct keys, each overwritten with the original value,
      restore the map. */
  lemma RestoreTwo<K, V>(m: map<K, V>, a: K, b: K, x: V, y: V)
    requires a != b && a in m && b in m
    ensures m[a := x][b := y][b := m[b]][a := m[a]] == m
  {
  }

  // ---------------------------------------------------------------------------
  // Queries
  // ---------------------------------------------------------------------------

  /** `isRoot`: an item without a parent. */
  predicate IsRoot(f: Forest, x: Id)
  {
    x !in f.parent
  }

  /** `getItemIndex`: throws for an item without a parent, else the item's
      position in its parent's children (-1 if it is no longer among them). */
  function GetItemIndex(f: Forest, x: Id): (r: Result<int>)
    requires f.WellFormed()
    ensures r.Err? <==> x !in f.parent
    ensures r.Ok? ==> -1 <= r.value < |f.children[f.parent[x]]|
    ensures r.Ok? && f.Attached() ==> 0 <= r.value && f.children[f.parent[x]][r.value] == x
  {
    if x !in f.parent then Err(ItemWithoutParent)
    else Ok(IndexOf(f.children[f.parent[x]], x))
  }

  /** `getRelativeSibling(item, i => i + 1)`: the entry after the item's index
      in its parent's children (index -1, for an item no longer among them,
      yields the first child). */
  function FollowingSibling(f: Forest, x: Id): (r: Option<Id>)
    requires f.WellFormed()
    ensures r.Some? ==> x in f.parent && r.value in f.children[f.parent[x]]
  {
    if x in f.parent then
      var context := f.children[f.parent[x]];
      var k := IndexOf(context, x) + 1;
      if 0 <= k < |context| then Some(context[k]) else None
    else None
  }

  /** For an item that is among its parent's children at position `k`, the
      following sibling is the entry at `k + 1`, and there is none for the last. */
  lemma FollowingSiblingAt(f: Forest, x: Id, k: nat)
    requires f.WellFormed() && x in f.parent
    requires k < |f.children[f.parent[x]]| && f.children[f.parent[x]][k] == x
    ensures var s := f.children[f.parent[x]];
            FollowingSibling(f, x) == if k + 1 < |s| then Some(s[k + 1]) else None
  {
    var p := f.parent[x];
    assert p in f.children;
    assert NoDup(f.children[p]);
    IndexOfNoDup(f.children[p], k);
  }

  /** `x` is `a` itself, or following `parent` links from `x` reaches `a`. */
  function InSubtree(f: Forest, x: Id, a: Id): bool
    requires f.Valid() && x in f.children
    decreases f.Level(x)
  {
    x == a || (x in f.parent && InSubtree(f, f.parent[x], a))
  }

  /** `isOneOfTheParents(item, parent)`: walks `parent` links from `item`. */
  method IsOneOfTheParents(f: Forest, item: Id, p: Id) returns (r: bool)
    requires f.Valid() && item in f.children
    ensures r == InSubtree(f, item, p)
  {
    var current: Option<Id> := Some(item);
    while current.Some?
      invariant current.Some? ==> current.value in f.children
      invariant InSubtree(f, item, p) == (current.Some? && InSubtree(f, current.value, p))
      decreases if current.Some? then f.Level(current.value) + 1 else 0
    {
      if current.value == p {
        return true;
      }
      current := if current.value in f.parent then Some(f.parent[current.value]) else None;
    }
    return false;
  }

  /** The subtree relation only goes downwards in level. */
  lemma {:induction false} InSubtreeLevel(f: Forest, x: Id, a: Id)
    requires f.Valid() && x in f.children && a in f.children && InSubtree(f, x, a)
    ensures f.Level(a) <= f.Level(x)
    ensures f.Level(a) == f.Level(x) ==> x == a
    decreases f.Level(x)
  {
    if x != a {
      InSubtreeLevel(f, f.parent[x], a);
    }
  }

  /** Whatever lies below a child lies below its parent. */
  lemma {:induction false} InSubtreeStep(f: Forest, y: Id, c: Id)
    requires f.Valid() && y in f.children && c in f.parent && InSubtree(f, y, c)
    ensures InSubtree(f, y, f.parent[c])
    decreases f.Level(y)
  {
    if y != c {
      InSubtreeStep(f, f.parent[y], c);
    }
  }

  /** The subtree relation is transitive. */
  lemma {:induction false} InSubtreeTrans(f: Forest, x: Id, y: Id, z: Id)
    requires f.Valid() && x in f.children && y in f.children
    requires InSubtree(f, x, y) && InSubtree(f, y, z)
    ensures InSubtree(f, x, z)
    decreases f.Level(x)
  {
    if x != y {
      InSubtreeTrans(f, f.parent[x], y, z);
    }
  }

  /** The ancestors of an item form a chain: of two of them, one lies below
      the other. */
  lemma {:induction false} AncestorsOrdered(f: Forest, y: Id, c: Id, x: Id)
    requires f.Valid() && y in f.children && c in f.children && x in f.children
    requires InSubtree(f, y, c) && InSubtree(f, y, x)
    ensures InSubtree(f, c, x) || InSubtree(f, x, c)
    decreases f.Level(y)
  {
    if y != c && y != x {
      ParentLevel(f, y);
      AncestorsOrdered(f, f.parent[y], c, x);
    }
  }

  /** Of two children of one item, neither lies below the other. */
  lemma SiblingsApart(f: Forest, a: Id, x: Id, c: Id)
    requires f.Valid() && a in f.children && x in f.children[a] && c in f.children[a]
    requires InSubtree(f, x, c)
    ensures x == c
  {
    ChildLevel(f, a, x);
    ChildLevel(f, a, c);
    if x != c {
      InSubtreeLevel(f, a, c);
    }
  }

  /** The reference meaning of `getFollowingItem`: the next sibling; failing
      that, the next sibling of the nearest ancestor that has one; nothing once
      the climb passes the root. */
  function Following(f: Forest, x: Id): Option<Id>
    requires f.Valid() && x in f.children
    decreases f.Level(x)
  {
    match FollowingSibling(f, x)
    case Some(s) => Some(s)
    case None => if x in f.parent then Following(f, f.parent[x]) else None
  }

  /** The following item of the child at position `k`: the next child, or,
      after the last child, what follows the parent. */
  lemma FollowingAt(f: Forest, a: Id, k: nat)
    requires f.Valid() && a in f.children && k < |f.children[a]|
    ensures f.children[a][k] in f.children
    ensures Following(f, f.children[a][k]) ==
      if k + 1 < |f.children[a]| then Some(f.children[a][k + 1]) else Following(f, a)
  {
    var x := f.children[a][k];
    ChildLevel(f, a, x);
    FollowingSiblingAt(f, x, k);
  }

  /** `getFollowingItem`: the sibling test, then the climb in a while loop. */
  method GetFollowingItem(f: Forest, item: Id) returns (r: Option<Id>)
    requires f.Valid() && item in f.children
    ensures r == Following(f, item)
  {
    var followingItem := FollowingSibling(f, item);
    if followingItem.Some? {
      return followingItem;
    }
    var p: Option<Id> := if item in f.parent then Some(f.parent[item]) else None;
    while p.Some? && FollowingSibling(f, p.value).None?
      invariant p.Some? ==> p.value in f.children
      invariant Following(f, item) == (if p.Some? then Following(f, p.value) else None)
      decreases if p.Some? then f.Level(p.value) + 1 else 0
    {
      p := if p.value in f.parent then Some(f.parent[p.value]) else None;
    }
    if p.Some? {
      r := FollowingSibling(f, p.value);
    } else {
      r := None;
    }
  }

  /** The subtree relation depends on the `parent` links alone. */
  lemma {:induction false} InSubtreeSameParents(f: Forest, g: Forest, x: Id, a: Id)
    requires f.Valid() && g.Valid() && f.parent == g.parent
    requires x in f.children && x in g.children && f.children.Keys == g.children.Keys
    ensures InSubtree(f, x, a) == InSubtree(g, x, a)
    decreases f.Level(x)
  {
    if x != a && x in f.parent {
      ParentLevel(f, x);
      InSubtreeSameParents(f, g, f.parent[x], a);
    }
  }

  /** An item is not below anything of a lower or equal level, except itself. */
  lemma NotBelowLower(f: Forest, t: Id, item: Id)
    requires f.Valid() && t in f.children && item in f.children && f.Level(t) <= f.Level(item) && t != item
    ensures !InSubtree(f, t, item)
  {
    if InSubtree(f, t, item) {
      InSubtreeLevel(f, t, item);
    }
  }

  /** The following item never lies inside the item's own subtree, and it is a
      child of one of the item's ancestors. */
  lemma {:induction false} FollowingOutsideSubtree(f: Forest, x: Id)
    requires f.Valid() && x in f.children && Following(f, x).Some?
    ensures var y := Following(f, x).value;
            y in f.children && !InSubtree(f, y, x) && y in f.parent && x in f.parent
            && InSubtree(f, x, f.parent[y])
    decreases f.Level(x)
  {
    var y := Following(f, x).value;
    var p := f.parent[x];
    ParentLevel(f, x);
    assert InSubtree(f, x, p);
    match FollowingSibling(f, x)
    case Some(s) =>
      var ctx := f.children[p];
      assert y in ctx && y in f.parent && f.parent[y] == p;
      assert y != x by {
        var i := IndexOf(ctx, x);
        if i >= 0 {
          assert ctx[i] == x && ctx[i + 1] == y;
        }
      }
      if InSubtree(f, y, x) {
        assert InSubtree(f, p, x);
        InSubtreeLevel(f, p, x);
      }
    case None =>
      FollowingOutsideSubtree(f, p);
      InSubtreeTrans(f, x, p, f.parent[y]);
      if InSubtree(f, y, x) {
        InSubtreeStep(f, y, x);
      }
  }

  /** `getItemBelow`: the first child of an open item with children or of the
      focused item; otherwise the following item. */
  function ItemBelow(f: Forest, focused: Id, x: Id): (r: Option<Id>)
    requires f.Valid() && x in f.children
  {
    if (f.isOpen[x] && |f.children[x]| > 0) || focused == x then
      if |f.children[x]| > 0 then Some(f.children[x][0]) else None
    else Following(f, x)
  }

  /** The item below is the first child of an item that shows its children
      (or is focused), and otherwise an item outside the item's subtree. */
  lemma ItemBelowStep(f: Forest, focused: Id, x: Id)
    requires f.Valid() && x in f.children && ItemBelow(f, focused, x).Some?
    ensures var y := ItemBelow(f, focused, x).value;
            && y in f.children && y != x
            && ((f.isOpen[x] && |f.children[x]| > 0) || focused == x ==>
                  y == f.children[x][0] && f.parent[y] == x)
            && (!((f.isOpen[x] && |f.children[x]| > 0) || focused == x) ==>
                  !InSubtree(f, y, x))
  {
    var y := ItemBelow(f, focused, x).value;
    if (f.isOpen[x] && |f.children[x]| > 0) || focused == x {
      ChildLevel(f, x, y);
    } else {
      FollowingOutsideSubtree(f, x);
    }
  }

  /** `getLastNestedItem`: descends through open items' last children. The
      source tests `item.children`, which is always truthy, so an open item
      without children reads `children[-1]`, which is undefined, and the next
      step throws: that is the `Err` case. */
  function LastNestedItem(f: Forest, x: Id): (r: Result<Id>)
    requires f.Valid() && x in f.children
    ensures r.Ok? ==> r.value in f.children && InSubtree(f, r.value, x) && !f.isOpen[r.value]
    decreases f.Bound() - f.Level(x)
  {
    if f.isOpen[x] then
      var cs := f.children[x];
      if |cs| == 0 then Err(UndefinedItem)
      else
        ChildLevel(f, x, cs[|cs| - 1]);
        var r := LastNestedItem(f, cs[|cs| - 1]);
        if r.Ok? then
          InSubtreeTrans(f, r.value, cs[|cs| - 1], x);
          r
        else r
    else Ok(x)
  }

  /** Where every open item has children, the descent never fails. */
  lemma {:induction false} LastNestedItemOk(f: Forest, x: Id)
    requires f.Valid() && f.OpenIffChildren() && x in f.children
    ensures LastNestedItem(f, x).Ok?
    decreases f.Bound() - f.Level(x)
  {
    var cs := f.children[x];
    if f.isOpen[x] {
      ChildLevel(f, x, cs[|cs| - 1]);
      LastNestedItemOk(f, cs[|cs| - 1]);
    }
  }

  /** `getItemAbove`. */
  function ItemAbove(f: Forest, x: Id): (r: Result<Option<Id>>)
    requires f.Valid() && x in f.children
  {
    if x in f.parent then
      var p := f.parent[x];
      var index := IndexOf(f.children[p], x);
      if index > 0 then
        var prev := f.children[p][index - 1];
        if f.isOpen[prev] then
          var pc := f.children[prev];
          if |pc| == 0 then Err(UndefinedItem)
          else
            match LastNestedItem(f, pc[|pc| - 1])
            case Ok(y) => Ok(Some(y))
            case Err(e) => Err(e)
        else
          match LastNestedItem(f, prev)
          case Ok(y) => Ok(Some(y))
          case Err(e) => Err(e)
      else if !IsRoot(f, p) then Ok(Some(p))
      else Ok(None)
    else Ok(None)
  }

  /** What `getItemAbove` finds for a later child: a closed item inside the
      previous sibling's subtree, unless the descent fails. */
  lemma ItemAboveLater(f: Forest, x: Id, k: nat)
    requires f.Valid() && x in f.parent
    requires 0 < k < |f.children[f.parent[x]]| && f.children[f.parent[x]][k] == x
    ensures var r := ItemAbove(f, x);
            r.Ok? ==> && r.value.Some? && r.value.value in f.children
                      && InSubtree(f, r.value.value, f.children[f.parent[x]][k - 1])
                      && !f.isOpen[r.value.value]
  {
    var p := f.parent[x];
    var s := f.children[p];
    IndexOfNoDup(s, k);
    var prev := s[k - 1];
    ChildLevel(f, p, prev);
    var pc := f.children[prev];
    if !f.isOpen[prev] {
      assert ItemAbove(f, x) == match LastNestedItem(f, prev) case Ok(y) => Ok(Some(y)) case Err(e) => Err(e);
    } else if |pc| > 0 {
      var r := LastNestedItem(f, pc[|pc| - 1]);
      assert ItemAbove(f, x) == match r case Ok(y) => Ok(Some(y)) case Err(e) => Err(e);
      if r.Ok? {
        InSubtreeStep(f, r.value, pc[|pc| - 1]);
      }
    }
  }

  /** What `getItemAbove` finds for a first child: its parent, or nothing
      when the parent is the root. */
  lemma ItemAboveFirst(f: Forest, x: Id)
    requires f.Valid() && x in f.parent
    requires var s := f.children[f.parent[x]]; |s| > 0 && s[0] == x
    ensures ItemAbove(f, x) == if IsRoot(f, f.parent[x]) then Ok(None) else Ok(Some(f.parent[x]))
  {
    assert x in f.children[f.parent[x]];
  }

  /** The items below `a` reached through `xs`, a run of `a`'s children, in the
      order `forEachChild` visits them: each child, then its own descendants. */
  function DescendantsOf(f: Forest, a: Id, xs: seq<Id>): (r: seq<Id>)
    requires f.Valid() && a in f.children
    requires forall i | 0 <= i < |xs| :: xs[i] in f.children[a]
    ensures forall y | y in r :: y in f.children && y != a && InSubtree(f, y, a)
    decreases f.Bound() - f.Level(a), |xs|
  {
    if xs == [] then []
    else
      var c := xs[0];
      ChildLevel(f, a, c);
      var below := if |f.children[c]| > 0 then DescendantsOf(f, c, f.children[c]) else [];
      var rest := DescendantsOf(f, a, xs[1..]);
      forall y | y in below ensures y != a && InSubtree(f, y, a) {
        InSubtreeStep(f, y, c);
        InSubtreeLevel(f, y, c);
      }
      [c] + below + rest
  }

  /** `forEachChild(item, cb)`: the items `cb` is called with, in call order. */
  function Descendants(f: Forest, x: Id): (r: seq<Id>)
    requires f.Valid() && x in f.children
    ensures forall y | y in r :: y in f.children && y != x && InSubtree(f, y, x)
  {
    DescendantsOf(f, x, f.children[x])
  }

  /** Every item of the run is called back. */
  lemma {:induction false} DescendantsOfHas(f: Forest, a: Id, xs: seq<Id>, i: nat)
    requires f.Valid() && a in f.children
    requires forall j | 0 <= j < |xs| :: xs[j] in f.children[a]
    requires i < |xs|
    ensures xs[i] in DescendantsOf(f, a, xs)
    decreases |xs|
  {
    if i > 0 {
      DescendantsOfHas(f, a, xs[1..], i - 1);
    }
  }

  /** The walk is closed under `children`: a child of an item called back is
      called back too. */
  lemma {:induction false} DescendantsOfClosed(f: Forest, a: Id, xs: seq<Id>, z: Id, y: Id)
    requires f.Valid() && a in f.children
    requires forall j | 0 <= j < |xs| :: xs[j] in f.children[a]
    requires z in DescendantsOf(f, a, xs) && z in f.children && y in f.children[z]
    ensures y in DescendantsOf(f, a, xs)
    decreases f.Bound() - f.Level(a), |xs|
  {
    var c := xs[0];
    ChildLevel(f, a, c);
    var below := if |f.children[c]| > 0 then DescendantsOf(f, c, f.children[c]) else [];
    var rest := DescendantsOf(f, a, xs[1..]);
    assert DescendantsOf(f, a, xs) == [c] + below + rest;
    if z == c {
      var i :| 0 <= i < |f.children[c]| && f.children[c][i] == y;
      DescendantsOfHas(f, c, f.children[c], i);
    } else if z in below {
      DescendantsOfClosed(f, c, f.children[c], z, y);
    } else {
      DescendantsOfClosed(f, a, xs[1..], z, y);
    }
  }

  /** `forEachChild` reaches everything below the item: on a table where every
      item is among its parent's children, each item strictly below `x` is
      called back. */
  lemma {:induction false} DescendantsComplete(f: Forest, x: Id, y: Id)
    requires f.Valid() && f.Attached() && x in f.children && y in f.children
    requires y != x && InSubtree(f, y, x)
    ensures y in Descendants(f, x)
    decreases f.Level(y)
  {
    var p := f.parent[y];
    ParentLevel(f, y);
    var i :| 0 <= i < |f.children[p]| && f.children[p][i] == y;
    if p == x {
      DescendantsOfHas(f, x, f.children[x], i);
    } else {
      DescendantsComplete(f, x, p);
      DescendantsOfClosed(f, x, f.children[x], p, y);
    }
  }

  // ---------------------------------------------------------------------------
  // Mutations, as values: what each mutator of `Store` leaves behind
  // ---------------------------------------------------------------------------

  /** `updateIsOpenFlag(item)`. */
  function OpenFlagUpdated(f: Forest, item: Id): Forest
    requires item in f.children
  {
    f.(isOpen := f.isOpen[item := |f.children[item]| != 0])
  }

  /** `removeChildAt(item, index)`. */
  function ChildRemovedAt(f: Forest, item: Id, index: int): Forest
    requires item in f.children
  {
    OpenFlagUpdated(f.(children := f.children[item := RemoveAt(f.children[item], index)]), item)
  }

  /** `removeChild(parent, item)`. */
  function ChildRemoved(f: Forest, p: Id, item: Id): Forest
    requires p in f.children
  {
    OpenFlagUpdated(f.(children := f.children[p := Without(f.children[p], item)]), p)
  }

  /** `addChildAt(parent, item, index)`. */
  function ChildAddedAt(f: Forest, p: Id, item: Id, index: int): Forest
    requires p in f.children
  {
    OpenFlagUpdated(f.(children := f.children[p := InsertAt(f.children[p], index, item)],
                      parent := f.parent[item := p]), p)
  }

  /** `addChildAt` puts `item` at the (clamped) index, keeps the other children
      in their order, points `item.parent` at the parent and leaves the parent
      open; nothing else changes. */
  lemma AddChildAtEffect(f: Forest, p: Id, item: Id, index: nat)
    requires p in f.children && index <= |f.children[p]|
    ensures var g := ChildAddedAt(f, p, item, index);
            && g.children[p][index] == item
            && g.children[p][..index] == f.children[p][..index]
            && g.children[p][index + 1..] == f.children[p][index..]
            && g.parent[item] == p && g.isOpen[p]
            && g.children.Keys == f.children.Keys && g.title == f.title
            && (forall q | q in f.children && q != p :: g.children[q] == f.children[q])
            && (forall y | y in f.parent && y != item :: y in g.parent && g.parent[y] == f.parent[y])
            && g.isOpen.Keys == f.isOpen.Keys + {p}
            && (forall q | q in f.isOpen && q != p :: g.isOpen[q] == f.isOpen[q])
  {
  }

  /** `removeChildAt` drops exactly the entry at the index and re-derives the
      flag from the remaining children; `item.parent` is untouched, and so is
      everything else. */
  lemma RemoveChildAtEffect(f: Forest, p: Id, index: nat)
    requires p in f.children && index < |f.children[p]|
    ensures var g := ChildRemovedAt(f, p, index);
            && g.children[p] == f.children[p][..index] + f.children[p][index + 1..]
            && g.isOpen[p] == (|f.children[p]| > 1)
            && g.parent == f.parent && g.title == f.title
            && g.children.Keys == f.children.Keys
            && (forall q | q in f.children && q != p :: g.children[q] == f.children[q])
            && g.isOpen.Keys == f.isOpen.Keys + {p}
            && (forall q | q in f.isOpen && q != p :: g.isOpen[q] == f.isOpen[q])
  {
  }

  /** On a table where each item sits in at most one place, `removeChild` and
      `removeChildAt` at the item's index agree. */
  lemma RemoveChildIsRemoveChildAt(f: Forest, p: Id, item: Id, k: nat)
    requires f.WellFormed() && p in f.children && k < |f.children[p]| && f.children[p][k] == item
    ensures ChildRemoved(f, p, item) == ChildRemovedAt(f, p, k)
  {
    WithoutSingle(f.children[p], item, k);
  }

  /** `removeChild` drops every occurrence of the item, keeps the others and
      does not clear `item.parent`; nothing else changes. */
  lemma RemoveChildEffect(f: Forest, p: Id, item: Id)
    requires p in f.children
    ensures var g := ChildRemoved(f, p, item);
            && item !in g.children[p]
            && multiset(g.children[p]) == multiset(f.children[p])[item := 0]
            && g.isOpen[p] == (|g.children[p]| > 0)
            && g.parent == f.parent && g.title == f.title
            && g.children.Keys == f.children.Keys
            && (forall q | q in f.children && q != p :: g.children[q] == f.children[q])
            && g.isOpen.Keys == f.isOpen.Keys + {p}
            && (forall q | q in f.isOpen && q != p :: g.isOpen[q] == f.isOpen[q])
  {
    WithoutCounts(f.children[p], item);
    assert item !in multiset(Without(f.children[p], item));
  }

  /** Replacing one `children` array by a duplicate-free selection of its
      entries, with `parent` untouched, keeps the table valid. */
  lemma ShrunkValid(f: Forest, g: Forest, p: Id)
    requires f.Valid() && p in f.children
    requires g.parent == f.parent && g.children.Keys == f.children.Keys
    requires g.isOpen.Keys == f.isOpen.Keys && g.title.Keys == f.title.Keys
    requires forall q | q in f.children && q != p :: g.children[q] == f.children[q]
    requires forall c | c in g.children[p] :: c in f.children[p]
    requires NoDup(g.children[p])
    ensures g.Valid()
  {
    ShrunkWellFormed(f, g, p);
    assert g.RankedBy(f.TheRank());
  }

  /** The agreement half of `ShrunkValid`. */
  lemma ShrunkWellFormed(f: Forest, g: Forest, p: Id)
    requires f.WellFormed() && p in f.children
    requires g.parent == f.parent && g.children.Keys == f.children.Keys
    requires g.isOpen.Keys == f.isOpen.Keys && g.title.Keys == f.title.Keys
    requires forall q | q in f.children && q != p :: g.children[q] == f.children[q]
    requires forall c | c in g.children[p] :: c in f.children[p]
    requires NoDup(g.children[p])
    ensures g.WellFormed()
  {
    forall x, c | x in g.children && c in g.children[x] ensures c in g.parent && g.parent[c] == x {
      assert c in f.children[x];
    }
  }

  /** `removeChildAt` keeps the table valid, whatever the index. */
  lemma RemoveChildAtValid(f: Forest, p: Id, index: int)
    requires f.Valid() && p in f.children
    ensures ChildRemovedAt(f, p, index).Valid()
  {
    var g := ChildRemovedAt(f, p, index);
    RemoveAtNoDup(f.children[p], index);
    assert g.children[p] == RemoveAt(f.children[p], index);
    ShrunkValid(f, g, p);
  }

  /** After `removeChildAt` at an item's position the item is in no
      `children` array; an item that was in none stays in none. */
  lemma RemoveChildAtDetaches(f: Forest, p: Id, index: int, x: Id)
    requires f.WellFormed() && p in f.children
    requires var s := f.children[p]; var k := SpliceStart(|s|, index);
             f.Detached(x) || (k < |s| && s[k] == x)
    ensures ChildRemovedAt(f, p, index).Detached(x)
  {
    var g := ChildRemovedAt(f, p, index);
    RemoveAtNoDup(f.children[p], index);
    forall y | y in g.children && y != p ensures x !in g.children[y] {
      assert g.children[y] == f.children[y];
      if !f.Detached(x) {
        assert f.parent[x] == p;
      }
    }
  }

  /** Filtering an item out keeps the table valid, and the item is then in no
      `children` array. */
  lemma RemoveChildValid(f: Forest, p: Id, item: Id)
    requires f.Valid() && p in f.children && item in f.parent && f.parent[item] == p
    ensures ChildRemoved(f, p, item).Valid()
    ensures ChildRemoved(f, p, item).Detached(item)
  {
    var g := ChildRemoved(f, p, item);
    var s := f.children[p];
    var s' := g.children[p];
    WithoutMembers(s, item);
    WithoutNoDup(s, item);
    ShrunkValid(f, g, p);
  }

  /** The rank after attaching `item` under `p`: the subtree of `item` is
      lifted above the level of `p`. */
  ghost function LiftedRank(f: Forest, p: Id, item: Id): (r: Rank)
    requires f.Valid() && p in f.children && item in f.children
  {
    var r0 := f.TheRank();
    var shift := r0.level[p] + 1;
    Rank(map x | x in f.children :: if InSubtree(f, x, item) then r0.level[x] + shift else r0.level[x],
         r0.bound + shift)
  }

  /** Attaching keeps parent and children in agreement. */
  lemma AddChildAtWellFormed(f: Forest, p: Id, item: Id, index: int)
    requires f.Valid() && p in f.children && item in f.children && f.Detached(item)
    ensures ChildAddedAt(f, p, item, index).WellFormed()
  {
    var g := ChildAddedAt(f, p, item, index);
    InsertAtNoDup(f.children[p], index, item);
    forall x, c | x in g.children && c in g.children[x] ensures c in g.parent && g.parent[c] == x {
      if c != item {
        assert c in f.children[x];
      }
    }
  }

  /** Attaching a detached item under a parent outside its own subtree keeps
      the table valid: parent and children still agree and no cycle appears. */
  lemma AddChildAtValid(f: Forest, p: Id, item: Id, index: int)
    requires f.Valid() && p in f.children && item in f.children
    requires f.Detached(item) && !InSubtree(f, p, item)
    ensures ChildAddedAt(f, p, item, index).Valid()
  {
    AddChildAtWellFormed(f, p, item, index);
    AddChildAtRanked(f, p, item, index);
  }

  /** The lifted rank orders the links after attaching `item` under `p`. */
  lemma AddChildAtRanked(f: Forest, p: Id, item: Id, index: int)
    requires f.Valid() && p in f.children && item in f.children && !InSubtree(f, p, item)
    ensures ChildAddedAt(f, p, item, index).RankedBy(LiftedRank(f, p, item))
  {
    var g := ChildAddedAt(f, p, item, index);
    var r := LiftedRank(f, p, item);
    forall x | x in g.parent
      ensures x in r.level && g.parent[x] in r.level && r.level[g.parent[x]] < r.level[x]
    {
      if x != item {
        ParentLevel(f, x);
        assert InSubtree(f, x, item) == InSubtree(f, f.parent[x], item);
      }
    }
  }

  /** `removeChildAt` at an item's position leaves every other item attached. */
  lemma RemoveChildAtAttached(f: Forest, p: Id, k: nat)
    requires f.WellFormed() && f.Attached() && p in f.children && k < |f.children[p]|
    ensures ChildRemovedAt(f, p, k).AttachedExcept(f.children[p][k])
  {
    RemoveAtNoDup(f.children[p], k);
  }

  /** `removeChild` of an item leaves every other item attached. */
  lemma RemoveChildAttached(f: Forest, p: Id, item: Id)
    requires f.WellFormed() && f.Attached() && p in f.children
    ensures ChildRemoved(f, p, item).AttachedExcept(item)
  {
    var g := ChildRemoved(f, p, item);
    WithoutMembers(f.children[p], item);
  }

  /** Inserting the one item that was not attached makes every item attached. */
  lemma AddChildAtAttached(f: Forest, p: Id, item: Id, index: int)
    requires f.AttachedExcept(item) && p in f.children
    ensures ChildAddedAt(f, p, item, index).Attached()
  {
    var g := ChildAddedAt(f, p, item, index);
    forall x | x in g.parent ensures g.parent[x] in g.children && x in g.children[g.parent[x]] {
      if x != item && f.parent[x] == p {
        InsertAtMembers(f.children[p], index, item);
      }
    }
  }

  // ---------------------------------------------------------------------------
  // The store: the same table, mutated in place
  // ---------------------------------------------------------------------------

  class Store {
    var children: map<Id, seq<Id>>
    var parent: map<Id, Id>
    var isOpen: map<Id, bool>
    var title: map<Id, string>

    /** The table these fields currently hold. */
    function Value(): Forest
      reads this
    {
      Forest(children, parent, isOpen, title)
    }

    constructor (f: Forest)
      ensures Value() == f
    {
      children, parent, isOpen, title := f.children, f.parent, f.isOpen, f.title;
    }

    method UpdateIsOpenFlag(item: Id)
      requires item in children
      modifies this
      ensures Value() == OpenFlagUpdated(old(Value()), item)
    {
      isOpen := isOpen[item := |children[item]| != 0];
    }

    method RemoveChildAt(item: Id, index: int)
      requires item in children
      modifies this
      ensures Value() == ChildRemovedAt(old(Value()), item, index)
    {
      children := children[item := RemoveAt(children[item], index)];
      UpdateIsOpenFlag(item);
    }

    method RemoveChild(p: Id, item: Id)
      requires p in children
      modifies this
      ensures Value() == ChildRemoved(old(Value()), p, item)
    {
      children := children[p := Without(children[p], item)];
      UpdateIsOpenFlag(p);
    }

    method AddChildAt(p: Id, item: Id, index: int)
      requires p in children
      modifies this
      ensures Value() == ChildAddedAt(old(Value()), p, item, index)
    {
      children := children[p := InsertAt(children[p], index, item)];
      parent := parent[item := p];
      UpdateIsOpenFlag(p);
    }
  }
}
