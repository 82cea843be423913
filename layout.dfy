/**
 * The layout engine of the newest generation (src/core/app.layout.ts).  A
 * pre-order walk from the focused item gives every visible item a grid column
 * and row; `syncViews` then reconciles the views, keyed by item, with that walk:
 * views of placed items are updated or created, all others are dropped.
 */
module Layout {
  import opened Wrappers
  import opened Arrays
  import opened Tree

  /** One call of the layout callback: an item and its grid cell. */
  datatype Placement = Placement(item: Id, gridX: int, gridY: int)

  /** `hasVisibleChildren`: the walk descends into an open item with children,
      and always into the focused item. */
  predicate HasVisibleChildren(f: Forest, focus: Option<Id>, x: Id)
    requires x in f.children && x in f.isOpen
  {
    (f.isOpen[x] && |f.children[x]| > 0) || focus == Some(x)
  }

  /** The walk places at least one child right below `x`. */
  predicate Expands(f: Forest, focus: Option<Id>, x: Id)
  {
    x in f.children && x in f.isOpen && HasVisibleChildren(f, focus, x) && |f.children[x]| > 0
  }

  /** `traverseItems`: the callback calls for `xs` placed at column `gridX` from
      row `gridY`, each followed by the walk of its visible children one column
      further right.  The number `traverseItems` returns is the length of this
      sequence.  The rank `r` and its lower bound `lvl` on `xs` only serve
      termination. */
  function Traverse(f: Forest, focus: Option<Id>, xs: seq<Id>, gridX: int, gridY: int, ghost r: Rank, ghost lvl: int): (ps: seq<Placement>)
    requires Walkable(f, r)
    requires forall x | x in xs :: x in f.children && lvl <= r.level[x]
    decreases r.bound + 1 - lvl, |xs|
  {
    if xs == [] then []
    else
      var below := Below(f, focus, xs[0], gridX, gridY, r);
      [Placement(xs[0], gridX, gridY)] + below + Traverse(f, focus, xs[1..], gridX, gridY + 1 + |below|, r, lvl)
  }

  /** The walk below `x`, placed at (`gridX`, `gridY`): its visible children
      from the next row on, one column further right. */
  function Below(f: Forest, focus: Option<Id>, x: Id, gridX: int, gridY: int, ghost r: Rank): (ps: seq<Placement>)
    requires Walkable(f, r) && x in f.children
    decreases r.bound + 1 - r.level[x], 0
  {
    if HasVisibleChildren(f, focus, x) then
      Traverse(f, focus, f.children[x], gridX + 1, gridY + 1, r, r.level[x] + 1)
    else []
  }

  /** `layout`: from the root, its children at column 0; from any other
      focused item, that item alone at column -1, row 0. */
  function Layout(f: Forest, focused: Id): (ps: seq<Placement>)
    requires f.Valid() && focused in f.children
  {
    ValidWalkable(f);
    var r := f.TheRank();
    if IsRoot(f, focused) then Traverse(f, Some(focused), f.children[focused], 0, 0, r, r.level[focused] + 1)
    else Traverse(f, Some(focused), [focused], -1, 0, r, r.level[focused])
  }

  /** The items placed at column `c`, in walk order. */
  function AtColumn(ps: seq<Placement>, c: int): (r: seq<Id>)
    ensures |r| <= |ps|
  {
    if ps == [] then []
    else (if ps[0].gridX == c then [ps[0].item] else []) + AtColumn(ps[1..], c)
  }

  /** The items placed anywhere. */
  function Items(ps: seq<Placement>): (r: set<Id>)
    ensures forall i | 0 <= i < |ps| :: ps[i].item in r
    ensures forall x | x in r :: exists i | 0 <= i < |ps| :: ps[i].item == x
  {
    set i | 0 <= i < |ps| :: ps[i].item
  }

  /** Rows, in order, are `y`, `y + 1`, ... without gaps. */
  predicate RowsFrom(ps: seq<Placement>, y: int)
  {
    forall i | 0 <= i < |ps| :: ps[i].gridY == y + i
  }

  /** No column lies left of `x`. */
  predicate ColumnsFrom(ps: seq<Placement>, x: int)
  {
    forall i | 0 <= i < |ps| :: ps[i].gridX >= x
  }

  /** Rows of one item, the walk below it and the walk after it follow on. */
  lemma RowsStep(p: Placement, below: seq<Placement>, rest: seq<Placement>, y: int)
    requires p.gridY == y && RowsFrom(below, y + 1) && RowsFrom(rest, y + 1 + |below|)
    ensures RowsFrom([p] + below + rest, y)
  {
  }

  /** Columns of one item at `x`, the walk below it right of `x` and the walk
      after it from `x` on. */
  lemma ColumnsStep(p: Placement, below: seq<Placement>, rest: seq<Placement>, x: int)
    requires p.gridX == x && ColumnsFrom(below, x + 1) && ColumnsFrom(rest, x)
    ensures ColumnsFrom([p] + below + rest, x) && ([p] + below + rest)[0] == p
  {
  }

  /** One step of the walk: the first item, the walk below it, then the walk
      of the remaining items from the row after those. */
  lemma TraverseUnfold(f: Forest, focus: Option<Id>, xs: seq<Id>, gridX: int, gridY: int, r: Rank, lvl: int)
    requires Walkable(f, r) && xs != []
    requires forall x | x in xs :: x in f.children && lvl <= r.level[x]
    ensures xs[0] in f.children
    ensures var below := Below(f, focus, xs[0], gridX, gridY, r);
      Traverse(f, focus, xs, gridX, gridY, r, lvl)
      == [Placement(xs[0], gridX, gridY)] + below + Traverse(f, focus, xs[1..], gridX, gridY + 1 + |below|, r, lvl)
  {
  }

  /** Rows, in walk order, are `gridY`, `gridY + 1`, ... without gaps. */
  lemma {:induction false} TraverseRows(f: Forest, focus: Option<Id>, xs: seq<Id>, gridX: int, gridY: int, r: Rank, lvl: int)
    requires Walkable(f, r)
    requires forall x | x in xs :: x in f.children && lvl <= r.level[x]
    ensures RowsFrom(Traverse(f, focus, xs, gridX, gridY, r, lvl), gridY)
    decreases r.bound + 1 - lvl, |xs|
  {
    if xs != [] {
      var x := xs[0];
      var p := Placement(x, gridX, gridY);
      var below := Below(f, focus, x, gridX, gridY, r);
      var rest := Traverse(f, focus, xs[1..], gridX, gridY + 1 + |below|, r, lvl);
      assert RowsFrom(below, gridY + 1) by {
        if HasVisibleChildren(f, focus, x) {
          TraverseRows(f, focus, f.children[x], gridX + 1, gridY + 1, r, r.level[x] + 1);
        }
      }
      assert RowsFrom(rest, gridY + 1 + |below|) by {
        TraverseRows(f, focus, xs[1..], gridX, gridY + 1 + |below|, r, lvl);
      }
      RowsStep(p, below, rest, gridY);
      TraverseUnfold(f, focus, xs, gridX, gridY, r, lvl);
    }
  }

  /** Every column is at least `gridX`, and a non-empty walk starts with the
      first item at (`gridX`, `gridY`). */
  lemma {:induction false} TraverseColumns(f: Forest, focus: Option<Id>, xs: seq<Id>, gridX: int, gridY: int, r: Rank, lvl: int)
    requires Walkable(f, r)
    requires forall x | x in xs :: x in f.children && lvl <= r.level[x]
    ensures var ps := Traverse(f, focus, xs, gridX, gridY, r, lvl);
            && ColumnsFrom(ps, gridX)
            && (xs != [] ==> |ps| > 0 && ps[0] == Placement(xs[0], gridX, gridY))
    decreases r.bound + 1 - lvl, |xs|
  {
    if xs != [] {
      var x := xs[0];
      var p := Placement(x, gridX, gridY);
      var below := Below(f, focus, x, gridX, gridY, r);
      var rest := Traverse(f, focus, xs[1..], gridX, gridY + 1 + |below|, r, lvl);
      assert ColumnsFrom(below, gridX + 1) by {
        if HasVisibleChildren(f, focus, x) {
          TraverseColumns(f, focus, f.children[x], gridX + 1, gridY + 1, r, r.level[x] + 1);
        }
      }
      assert ColumnsFrom(rest, gridX) by {
        TraverseColumns(f, focus, xs[1..], gridX, gridY + 1 + |below|, r, lvl);
      }
      ColumnsStep(p, below, rest, gridX);
      TraverseUnfold(f, focus, xs, gridX, gridY, r, lvl);
    }
  }

  lemma {:induction false} AtColumnJoin(a: seq<Placement>, b: seq<Placement>, c: int)
    ensures AtColumn(a + b, c) == AtColumn(a, c) + AtColumn(b, c)
    decreases |a|
  {
    if a == [] {
      assert a + b == b;
    } else {
      var h := if a[0].gridX == c then [a[0].item] else [];
      assert (a + b)[0] == a[0];
      assert (a + b)[1..] == a[1..] + b;
      AtColumnJoin(a[1..], b, c);
      assert AtColumn(a + b, c) == h + AtColumn(a[1..] + b, c);
      assert AtColumn(a, c) == h + AtColumn(a[1..], c);
    }
  }

  lemma {:induction false} AtColumnNone(ps: seq<Placement>, c: int)
    requires ColumnsFrom(ps, c + 1)
    ensures AtColumn(ps, c) == []
    decreases |ps|
  {
    if ps != [] {
      AtColumnNone(ps[1..], c);
    }
  }

  /** Column `x` of one item at `x`, the walk below it right of `x` and the
      walk after it. */
  lemma RootsStep(p: Placement, below: seq<Placement>, rest: seq<Placement>, x: int)
    requires p.gridX == x && AtColumn(below, x) == []
    ensures AtColumn([p] + below + rest, x) == [p.item] + AtColumn(rest, x)
  {
    AtColumnJoin([p] + below, rest, x);
    AtColumnJoin([p], below, x);
    assert [p][1..] == [];
  }

  /** Column `c` of a walk that starts with the first of `xs`, continues
      right of `c` and then with the rest of `xs` at `c`. */
  lemma RootsJoin(ps: seq<Placement>, p: Placement, below: seq<Placement>, rest: seq<Placement>, xs: seq<Id>, c: int)
    requires xs != [] && p == Placement(xs[0], c, p.gridY) && ps == [p] + below + rest
    requires AtColumn(below, c) == [] && AtColumn(rest, c) == xs[1..]
    ensures AtColumn(ps, c) == xs
  {
    RootsStep(p, below, rest, c);
    assert [xs[0]] + xs[1..] == xs;
  }

  /** Nothing of the walk below an item lies in the item's own column. */
  lemma BelowRight(f: Forest, focus: Option<Id>, x: Id, gridX: int, gridY: int, r: Rank)
    requires Walkable(f, r) && x in f.children
    ensures AtColumn(Below(f, focus, x, gridX, gridY, r), gridX) == []
  {
    if HasVisibleChildren(f, focus, x) {
      TraverseColumns(f, focus, f.children[x], gridX + 1, gridY + 1, r, r.level[x] + 1);
    }
    AtColumnNone(Below(f, focus, x, gridX, gridY, r), gridX);
  }

  /** The induction step of `TraverseRoots`: column `gridX` of the walk is
      the first item followed by column `gridX` of the walk of the rest. */
  lemma RootsCons(f: Forest, focus: Option<Id>, xs: seq<Id>, gridX: int, gridY: int, r: Rank, lvl: int)
    requires Walkable(f, r) && xs != []
    requires forall x | x in xs :: x in f.children && lvl <= r.level[x]
    requires var below := Below(f, focus, xs[0], gridX, gridY, r);
      AtColumn(Traverse(f, focus, xs[1..], gridX, gridY + 1 + |below|, r, lvl), gridX) == xs[1..]
    ensures AtColumn(Traverse(f, focus, xs, gridX, gridY, r, lvl), gridX) == xs
  {
    var below := Below(f, focus, xs[0], gridX, gridY, r);
    BelowRight(f, focus, xs[0], gridX, gridY, r);
    TraverseUnfold(f, focus, xs, gridX, gridY, r, lvl);
    RootsJoin(Traverse(f, focus, xs, gridX, gridY, r, lvl), Placement(xs[0], gridX, gridY), below,
      Traverse(f, focus, xs[1..], gridX, gridY + 1 + |below|, r, lvl), xs, gridX);
  }

  /** The items placed at column `gridX` are exactly `xs`, in order: every other
      placement lies further right, below one of them. */
  lemma {:induction false} TraverseRoots(f: Forest, focus: Option<Id>, xs: seq<Id>, gridX: int, gridY: int, r: Rank, lvl: int)
    requires Walkable(f, r)
    requires forall x | x in xs :: x in f.children && lvl <= r.level[x]
    ensures AtColumn(Traverse(f, focus, xs, gridX, gridY, r, lvl), gridX) == xs
    decreases |xs|
  {
    if xs != [] {
      var below := Below(f, focus, xs[0], gridX, gridY, r);
      TraverseRoots(f, focus, xs[1..], gridX, gridY + 1 + |below|, r, lvl);
      RootsCons(f, focus, xs, gridX, gridY, r, lvl);
    }
  }

  /** Two consecutive rows of the walk: the second is the first child of the
      first's item, one column further right, exactly when that item expands;
      otherwise it lies no further right than the first. */
  predicate Link(f: Forest, focus: Option<Id>, p: Placement, q: Placement)
  {
    && q.gridX <= p.gridX + 1
    && (Expands(f, focus, p.item) ==> q.gridX == p.gridX + 1)
    && (q.gridX == p.gridX + 1 ==> Expands(f, focus, p.item) && q.item == f.children[p.item][0])
  }

  /** Every pair of consecutive rows is a `Link`, and the last item does not
      expand. */
  predicate Chain(f: Forest, focus: Option<Id>, ps: seq<Placement>)
  {
    && (forall i | 0 <= i < |ps| - 1 :: Link(f, focus, ps[i], ps[i + 1]))
    && (ps != [] ==> !Expands(f, focus, ps[|ps| - 1].item))
  }

  lemma ChainCons(f: Forest, focus: Option<Id>, p: Placement, b: seq<Placement>)
    requires Chain(f, focus, b)
    requires b == [] ==> !Expands(f, focus, p.item)
    requires b != [] ==> Link(f, focus, p, b[0])
    ensures Chain(f, focus, [p] + b)
  {
    var r := [p] + b;
    forall i | 0 <= i < |r| - 1 ensures Link(f, focus, r[i], r[i + 1]) {
      if i > 0 {
        assert r[i] == b[i - 1] && r[i + 1] == b[i];
      }
    }
  }

  lemma ChainJoin(f: Forest, focus: Option<Id>, a: seq<Placement>, b: seq<Placement>)
    requires Chain(f, focus, a) && Chain(f, focus, b)
    requires a != [] && b != [] ==> b[0].gridX <= a[|a| - 1].gridX
    ensures Chain(f, focus, a + b)
  {
    var r := a + b;
    forall i | 0 <= i < |r| - 1 ensures Link(f, focus, r[i], r[i + 1]) {
      if i < |a| - 1 {
        assert r[i] == a[i] && r[i + 1] == a[i + 1];
      } else if i >= |a| {
        assert r[i] == b[i - |a|] && r[i + 1] == b[i - |a| + 1];
      }
    }
  }

  /** One item of the walk, the walk below it and the walk of the remaining
      items form a `Chain` when each part does and the parts meet properly. */
  lemma ChainStep(f: Forest, focus: Option<Id>, p: Placement, below: seq<Placement>, rest: seq<Placement>)
    requires Chain(f, focus, below) && Chain(f, focus, rest)
    requires ColumnsFrom(below, p.gridX + 1)
    requires rest != [] ==> rest[0].gridX == p.gridX
    requires below == [] ==> !Expands(f, focus, p.item)
    requires below != [] ==> Link(f, focus, p, below[0])
    ensures Chain(f, focus, [p] + below + rest)
  {
    ChainCons(f, focus, p, below);
    var a := [p] + below;
    if below != [] {
      assert a[|a| - 1] == below[|below| - 1];
    }
    ChainJoin(f, focus, a, rest);
  }

  /** The whole walk is a `Chain`: it enters an item's children exactly when the
      item is open with children or is the focused item with children. */
  lemma {:induction false} TraverseSteps(f: Forest, focus: Option<Id>, xs: seq<Id>, gridX: int, gridY: int, r: Rank, lvl: int)
    requires Walkable(f, r)
    requires forall x | x in xs :: x in f.children && lvl <= r.level[x]
    ensures Chain(f, focus, Traverse(f, focus, xs, gridX, gridY, r, lvl))
    decreases r.bound + 1 - lvl, |xs|
  {
    if xs != [] {
      var below := Below(f, focus, xs[0], gridX, gridY, r);
      BelowSteps(f, focus, xs[0], gridX, gridY, r);
      TraverseSteps(f, focus, xs[1..], gridX, gridY + 1 + |below|, r, lvl);
      StepsCons(f, focus, xs, gridX, gridY, r, lvl);
    }
  }

  /** The induction step of `TraverseSteps`: the first item, the `Chain`
      below it and the `Chain` of the rest make one `Chain`. */
  lemma StepsCons(f: Forest, focus: Option<Id>, xs: seq<Id>, gridX: int, gridY: int, r: Rank, lvl: int)
    requires Walkable(f, r) && xs != []
    requires forall x | x in xs :: x in f.children && lvl <= r.level[x]
    requires var below := Below(f, focus, xs[0], gridX, gridY, r);
      && Chain(f, focus, below) && ColumnsFrom(below, gridX + 1)
      && (below == [] ==> !Expands(f, focus, xs[0]))
      && (below != [] ==> Link(f, focus, Placement(xs[0], gridX, gridY), below[0]))
      && Chain(f, focus, Traverse(f, focus, xs[1..], gridX, gridY + 1 + |below|, r, lvl))
    ensures Chain(f, focus, Traverse(f, focus, xs, gridX, gridY, r, lvl))
  {
    var below := Below(f, focus, xs[0], gridX, gridY, r);
    var rest := Traverse(f, focus, xs[1..], gridX, gridY + 1 + |below|, r, lvl);
    TraverseColumns(f, focus, xs[1..], gridX, gridY + 1 + |below|, r, lvl);
    ChainStep(f, focus, Placement(xs[0], gridX, gridY), below, rest);
    TraverseUnfold(f, focus, xs, gridX, gridY, r, lvl);
  }

  /** The walk below one item is a `Chain` right of its column that starts,
      when it is not empty, with the item's first child. */
  lemma {:induction false} BelowSteps(f: Forest, focus: Option<Id>, x: Id, gridX: int, gridY: int, r: Rank)
    requires Walkable(f, r) && x in f.children
    ensures var below := Below(f, focus, x, gridX, gridY, r);
      && Chain(f, focus, below) && ColumnsFrom(below, gridX + 1)
      && (below == [] ==> !Expands(f, focus, x))
      && (below != [] ==> Link(f, focus, Placement(x, gridX, gridY), below[0]))
    decreases r.bound + 1 - r.level[x], 0
  {
    if HasVisibleChildren(f, focus, x) {
      TraverseSteps(f, focus, f.children[x], gridX + 1, gridY + 1, r, r.level[x] + 1);
      TraverseColumns(f, focus, f.children[x], gridX + 1, gridY + 1, r, r.level[x] + 1);
    }
  }

  /** All four facts about one walk together. */
  lemma TraverseShape(f: Forest, focus: Option<Id>, xs: seq<Id>, gridX: int, gridY: int, r: Rank, lvl: int)
    requires Walkable(f, r)
    requires forall x | x in xs :: x in f.children && lvl <= r.level[x]
    ensures var ps := Traverse(f, focus, xs, gridX, gridY, r, lvl);
      && RowsFrom(ps, gridY) && ColumnsFrom(ps, gridX) && AtColumn(ps, gridX) == xs
      && Chain(f, focus, ps)
  {
    TraverseRows(f, focus, xs, gridX, gridY, r, lvl);
    TraverseColumns(f, focus, xs, gridX, gridY, r, lvl);
    TraverseRoots(f, focus, xs, gridX, gridY, r, lvl);
    TraverseSteps(f, focus, xs, gridX, gridY, r, lvl);
  }

  /** The walk of one item is that item followed by the walk below it. */
  lemma TraverseOne(f: Forest, focus: Option<Id>, x: Id, gridX: int, gridY: int, r: Rank, lvl: int)
    requires Walkable(f, r) && x in f.children && lvl <= r.level[x]
    ensures Traverse(f, focus, [x], gridX, gridY, r, lvl)
            == [Placement(x, gridX, gridY)] + Below(f, focus, x, gridX, gridY, r)
  {
    var below := Below(f, focus, x, gridX, gridY, r);
    assert [x][1..] == [];
    assert Traverse(f, focus, [x][1..], gridX, gridY + 1 + |below|, r, lvl) == [];
  }

  /** No item is placed twice. */
  ghost predicate Distinct(ps: seq<Placement>)
  {
    forall i, j | 0 <= i < j < |ps| :: ps[i].item != ps[j].item
  }

  /** `y` lies strictly below `a`, and the child of `a` it lies below is one
      of `xs`. */
  ghost predicate Under(f: Forest, a: Id, xs: seq<Id>, y: Id)
    requires f.Valid() && a in f.children
  {
    && y in f.children && y != a && InSubtree(f, y, a)
    && forall c | c in f.children[a] && InSubtree(f, y, c) :: c in xs
  }

  /** Every placed item is `Under(f, a, xs, _)`. */
  ghost predicate AllUnder(f: Forest, a: Id, xs: seq<Id>, ps: seq<Placement>)
    requires f.Valid() && a in f.children
  {
    forall i | 0 <= i < |ps| :: Under(f, a, xs, ps[i].item)
  }

  /** A child of `a` listed in `xs` is under `a` through `xs`. */
  lemma UnderChild(f: Forest, a: Id, xs: seq<Id>, x: Id)
    requires f.Valid() && a in f.children && x in f.children[a] && x in xs
    ensures Under(f, a, xs, x)
  {
    ChildLevel(f, a, x);
    forall c | c in f.children[a] && InSubtree(f, x, c) ensures c in xs {
      SiblingsApart(f, a, x, c);
    }
  }

  /** Whatever lies strictly below a child `x` of `a` listed in `xs` is under
      `a` through `xs`. */
  lemma UnderGrandchild(f: Forest, a: Id, xs: seq<Id>, x: Id, y: Id)
    requires f.Valid() && a in f.children && x in f.children[a] && x in xs
    requires Under(f, x, f.children[x], y)
    ensures Under(f, a, xs, y)
  {
    ChildLevel(f, a, x);
    InSubtreeLevel(f, y, x);
    InSubtreeTrans(f, y, x, a);
    forall c | c in f.children[a] && InSubtree(f, y, c) ensures c in xs {
      AncestorsOrdered(f, y, c, x);
      if InSubtree(f, c, x) {
        SiblingsApart(f, a, c, x);
      } else {
        SiblingsApart(f, a, x, c);
      }
    }
  }

  /** One item, the walk below it and the walk after it, each under `a`. */
  lemma AllUnderStep(f: Forest, a: Id, xs: seq<Id>, p: Placement, below: seq<Placement>, rest: seq<Placement>)
    requires f.Valid() && a in f.children && xs != [] && p.item == xs[0] && xs[0] in f.children[a]
    requires AllUnder(f, xs[0], f.children[xs[0]], below) && AllUnder(f, a, xs[1..], rest)
    ensures AllUnder(f, a, xs, [p] + below + rest)
  {
    var ps := [p] + below + rest;
    forall i | 0 <= i < |ps| ensures Under(f, a, xs, ps[i].item) {
      if i == 0 {
        UnderChild(f, a, xs, p.item);
      } else if i < 1 + |below| {
        assert ps[i] == below[i - 1];
        UnderGrandchild(f, a, xs, p.item, ps[i].item);
      } else {
        assert ps[i] == rest[i - 1 - |below|];
        assert Under(f, a, xs[1..], ps[i].item);
      }
    }
  }

  /** Every item the walk of `xs`, children of `a`, places lies strictly below
      `a`, and the child of `a` it lies below is one of `xs`. */
  lemma {:induction false} TraverseWithin(f: Forest, focus: Option<Id>, xs: seq<Id>, gridX: int, gridY: int, a: Id)
    requires f.Valid() && a in f.children && Walkable(f, f.TheRank())
    requires forall x | x in xs :: x in f.children[a] && x in f.children && f.Level(a) + 1 <= f.Level(x)
    ensures AllUnder(f, a, xs, Traverse(f, focus, xs, gridX, gridY, f.TheRank(), f.Level(a) + 1))
    decreases f.Bound() - f.Level(a), |xs|
  {
    if xs != [] {
      var r := f.TheRank();
      var x := xs[0];
      ChildLevel(f, a, x);
      var below := Below(f, focus, x, gridX, gridY, r);
      BelowWithin(f, focus, x, gridX, gridY);
      TraverseWithin(f, focus, xs[1..], gridX, gridY + 1 + |below|, a);
      AllUnderStep(f, a, xs, Placement(x, gridX, gridY), below,
        Traverse(f, focus, xs[1..], gridX, gridY + 1 + |below|, r, f.Level(a) + 1));
      TraverseUnfold(f, focus, xs, gridX, gridY, r, f.Level(a) + 1);
    }
  }

  /** The walk below one item places only items below it. */
  lemma {:induction false} BelowWithin(f: Forest, focus: Option<Id>, x: Id, gridX: int, gridY: int)
    requires f.Valid() && x in f.children && Walkable(f, f.TheRank())
    ensures AllUnder(f, x, f.children[x], Below(f, focus, x, gridX, gridY, f.TheRank()))
    decreases f.Bound() + 1 - f.Level(x), 0
  {
    if HasVisibleChildren(f, focus, x) {
      ChildrenLevels(f, x);
      TraverseWithin(f, focus, f.children[x], gridX + 1, gridY + 1, x);
    }
  }

  /** Two consecutive rows of a walk: below an item that expands comes its
      first child, and below any other item comes its following item
      (`getFollowingItem`). */
  ghost predicate Follows(f: Forest, focus: Option<Id>, ps: seq<Placement>)
    requires f.Valid()
  {
    forall i | 0 <= i < |ps| - 1 :: StepOk(f, focus, ps, i)
  }

  /** Rows `i` and `i + 1` of `ps` are as `Follows` says. */
  ghost predicate StepOk(f: Forest, focus: Option<Id>, ps: seq<Placement>, i: int)
    requires f.Valid() && 0 <= i < |ps| - 1
  {
    && ps[i].item in f.children
    && (Expands(f, focus, ps[i].item) ==> ps[i + 1].item == f.children[ps[i].item][0])
    && (!Expands(f, focus, ps[i].item) ==> Following(f, ps[i].item) == Some(ps[i + 1].item))
  }

  /** The last item of a walk does not expand, and what follows it is what
      follows `a`. */
  ghost predicate HandsOver(f: Forest, focus: Option<Id>, ps: seq<Placement>, a: Id)
    requires f.Valid() && a in f.children
  {
    ps != [] ==>
      && ps[|ps| - 1].item in f.children && !Expands(f, focus, ps[|ps| - 1].item)
      && Following(f, ps[|ps| - 1].item) == Following(f, a)
  }

  /** The child of `a` at position `j`, the walk below it and the walk of the
      later children of `a` together keep `Follows` and hand over to what
      follows `a`. */
  lemma FollowsStep(f: Forest, focus: Option<Id>, a: Id, j: nat, p: Placement, below: seq<Placement>, rest: seq<Placement>)
    requires f.Valid() && a in f.children && j < |f.children[a]| && p.item == f.children[a][j]
    requires p.item in f.children
    requires below != [] <==> Expands(f, focus, p.item)
    requires below != [] ==> below[0].item == f.children[p.item][0]
    requires Follows(f, focus, below) && HandsOver(f, focus, below, p.item)
    requires rest != [] <==> j + 1 < |f.children[a]|
    requires rest != [] ==> rest[0].item == f.children[a][j + 1]
    requires Follows(f, focus, rest) && HandsOver(f, focus, rest, a)
    ensures Follows(f, focus, [p] + below + rest) && HandsOver(f, focus, [p] + below + rest, a)
  {
    FollowingAt(f, a, j);
    var ps := [p] + below + rest;
    forall i | 0 <= i < |ps| - 1 ensures StepOk(f, focus, ps, i) {
      if i == 0 {
        if below == [] {
          assert ps[1] == rest[0];
        } else {
          assert ps[1] == below[0];
        }
      } else if i < |below| {
        assert StepOk(f, focus, below, i - 1);
        assert ps[i] == below[i - 1] && ps[i + 1] == below[i];
      } else if i == |below| {
        assert ps[i] == below[|below| - 1] && ps[i + 1] == rest[0];
      } else {
        assert StepOk(f, focus, rest, i - 1 - |below|);
        assert ps[i] == rest[i - 1 - |below|] && ps[i + 1] == rest[i - |below|];
      }
    }
    if rest != [] {
      assert ps[|ps| - 1] == rest[|rest| - 1];
    } else if below != [] {
      assert ps[|ps| - 1] == below[|below| - 1];
    } else {
      assert ps[|ps| - 1] == p;
    }
  }

  /** The walk of the children of `a` from position `j` on keeps `Follows`
      and hands over to what follows `a`. */
  lemma {:induction false} TraverseFollows(f: Forest, focus: Option<Id>, a: Id, j: nat, gridX: int, gridY: int)
    requires f.Valid() && a in f.children && Walkable(f, f.TheRank()) && j <= |f.children[a]|
    requires forall x | x in f.children[a] :: x in f.children && f.Level(a) + 1 <= f.Level(x)
    ensures var ps := Traverse(f, focus, f.children[a][j..], gridX, gridY, f.TheRank(), f.Level(a) + 1);
      Follows(f, focus, ps) && HandsOver(f, focus, ps, a)
    decreases f.Bound() - f.Level(a), |f.children[a]| - j
  {
    if j < |f.children[a]| {
      var x := f.children[a][j];
      ChildLevel(f, a, x);
      var below := Below(f, focus, x, gridX, gridY, f.TheRank());
      BelowFollows(f, focus, x, gridX, gridY);
      TraverseFollows(f, focus, a, j + 1, gridX, gridY + 1 + |below|);
      FollowsCons(f, focus, a, j, gridX, gridY);
    }
  }

  /** The induction step of `TraverseFollows`. */
  lemma FollowsCons(f: Forest, focus: Option<Id>, a: Id, j: nat, gridX: int, gridY: int)
    requires f.Valid() && a in f.children && Walkable(f, f.TheRank()) && j < |f.children[a]|
    requires forall x | x in f.children[a] :: x in f.children && f.Level(a) + 1 <= f.Level(x)
    requires var x := f.children[a][j];
      var below := Below(f, focus, x, gridX, gridY, f.TheRank());
      var rest := Traverse(f, focus, f.children[a][j + 1..], gridX, gridY + 1 + |below|, f.TheRank(), f.Level(a) + 1);
      && (below != [] <==> Expands(f, focus, x))
      && (below != [] ==> below[0].item == f.children[x][0])
      && Follows(f, focus, below) && HandsOver(f, focus, below, x)
      && Follows(f, focus, rest) && HandsOver(f, focus, rest, a)
    ensures var ps := Traverse(f, focus, f.children[a][j..], gridX, gridY, f.TheRank(), f.Level(a) + 1);
      Follows(f, focus, ps) && HandsOver(f, focus, ps, a)
  {
    var x := f.children[a][j];
    var below := Below(f, focus, x, gridX, gridY, f.TheRank());
    var rest := Traverse(f, focus, f.children[a][j + 1..], gridX, gridY + 1 + |below|, f.TheRank(), f.Level(a) + 1);
    TraverseFrom(f, focus, a, j + 1, gridX, gridY + 1 + |below|);
    FollowsStep(f, focus, a, j, Placement(x, gridX, gridY), below, rest);
    TraverseAt(f, focus, a, j, gridX, gridY);
  }

  /** The walk of the children of `a` from position `j` on is empty exactly
      when no child is left, and otherwise starts with the child at `j`. */
  lemma TraverseFrom(f: Forest, focus: Option<Id>, a: Id, j: nat, gridX: int, gridY: int)
    requires f.Valid() && a in f.children && Walkable(f, f.TheRank()) && j <= |f.children[a]|
    requires forall x | x in f.children[a] :: x in f.children && f.Level(a) + 1 <= f.Level(x)
    ensures var ps := Traverse(f, focus, f.children[a][j..], gridX, gridY, f.TheRank(), f.Level(a) + 1);
      && (ps != [] <==> j < |f.children[a]|)
      && (ps != [] ==> ps[0].item == f.children[a][j])
  {
    if j < |f.children[a]| {
      TraverseAt(f, focus, a, j, gridX, gridY);
    } else {
      assert f.children[a][j..] == [];
    }
  }

  /** The walk of the children of `a` from position `j` on: the child at `j`,
      the walk below it, then the walk of the later children. */
  lemma TraverseAt(f: Forest, focus: Option<Id>, a: Id, j: nat, gridX: int, gridY: int)
    requires f.Valid() && a in f.children && Walkable(f, f.TheRank()) && j < |f.children[a]|
    requires forall x | x in f.children[a] :: x in f.children && f.Level(a) + 1 <= f.Level(x)
    ensures f.children[a][j] in f.children
    ensures Traverse(f, focus, f.children[a][j..], gridX, gridY, f.TheRank(), f.Level(a) + 1)
      == [Placement(f.children[a][j], gridX, gridY)] + Below(f, focus, f.children[a][j], gridX, gridY, f.TheRank())
         + Traverse(f, focus, f.children[a][j + 1..], gridX,
                    gridY + 1 + |Below(f, focus, f.children[a][j], gridX, gridY, f.TheRank())|, f.TheRank(), f.Level(a) + 1)
  {
    var xs := f.children[a][j..];
    assert xs[0] == f.children[a][j];
    assert xs[1..] == f.children[a][j + 1..];
    TraverseUnfold(f, focus, xs, gridX, gridY, f.TheRank(), f.Level(a) + 1);
  }

  /** The walk below one item is empty exactly when the item does not expand,
      starts with its first child, keeps `Follows` and hands over to what
      follows the item. */
  lemma {:induction false} BelowFollows(f: Forest, focus: Option<Id>, x: Id, gridX: int, gridY: int)
    requires f.Valid() && x in f.children && Walkable(f, f.TheRank())
    ensures var below := Below(f, focus, x, gridX, gridY, f.TheRank());
      && (below != [] <==> Expands(f, focus, x))
      && (below != [] ==> below[0].item == f.children[x][0])
      && Follows(f, focus, below) && HandsOver(f, focus, below, x)
    decreases f.Bound() + 1 - f.Level(x), 0
  {
    if HasVisibleChildren(f, focus, x) {
      ChildrenLevels(f, x);
      assert f.children[x][0..] == f.children[x];
      TraverseFollows(f, focus, x, 0, gridX + 1, gridY + 1);
      TraverseColumns(f, focus, f.children[x], gridX + 1, gridY + 1, f.TheRank(), f.Level(x) + 1);
    }
  }

  /** The first of distinct items is not among the others. */
  lemma NoDupTail(xs: seq<Id>)
    requires NoDup(xs) && xs != []
    ensures NoDup(xs[1..]) && xs[0] !in xs[1..]
  {
    forall i, j | 0 <= i < j < |xs[1..]| ensures xs[1..][i] != xs[1..][j] {
      assert xs[1..][i] == xs[i + 1] && xs[1..][j] == xs[j + 1];
    }
    forall j | 0 <= j < |xs[1..]| ensures xs[1..][j] != xs[0] {
      assert xs[1..][j] == xs[j + 1];
    }
  }

  /** One item, the walk below it and the walk after it place no item twice
      when each walk does not and the three lie in different places. */
  lemma DistinctStep(f: Forest, a: Id, xs: seq<Id>, p: Placement, below: seq<Placement>, rest: seq<Placement>)
    requires f.Valid() && a in f.children && NoDup(xs) && xs != [] && p.item == xs[0] && xs[0] in f.children[a]
    requires AllUnder(f, xs[0], f.children[xs[0]], below) && AllUnder(f, a, xs[1..], rest)
    requires Distinct(below) && Distinct(rest)
    ensures Distinct([p] + below + rest)
  {
    var x := p.item;
    NoDupTail(xs);
    ChildLevel(f, a, x);
    forall j | 0 <= j < |rest| ensures rest[j].item != x && !InSubtree(f, rest[j].item, x) {
      assert Under(f, a, xs[1..], rest[j].item);
    }
    var ps := [p] + below + rest;
    forall i, j | 0 <= i < j < |ps| ensures ps[i].item != ps[j].item {
      if j >= 1 + |below| {
        assert ps[j] == rest[j - 1 - |below|];
        if i >= 1 + |below| {
          assert ps[i] == rest[i - 1 - |below|];
        } else if i > 0 {
          assert ps[i] == below[i - 1];
          assert Under(f, x, f.children[x], ps[i].item);
        }
      } else {
        assert ps[j] == below[j - 1];
        assert Under(f, x, f.children[x], ps[j].item);
        if i > 0 {
          assert ps[i] == below[i - 1];
        }
      }
    }
  }

  /** The walk of distinct children of `a` places no item twice. */
  lemma {:induction false} TraverseDistinct(f: Forest, focus: Option<Id>, xs: seq<Id>, gridX: int, gridY: int, a: Id)
    requires f.Valid() && a in f.children && Walkable(f, f.TheRank()) && NoDup(xs)
    requires forall x | x in xs :: x in f.children[a] && x in f.children && f.Level(a) + 1 <= f.Level(x)
    ensures Distinct(Traverse(f, focus, xs, gridX, gridY, f.TheRank(), f.Level(a) + 1))
    decreases f.Bound() - f.Level(a), |xs|
  {
    if xs != [] {
      var r := f.TheRank();
      var x := xs[0];
      ChildLevel(f, a, x);
      NoDupTail(xs);
      var below := Below(f, focus, x, gridX, gridY, r);
      var rest := Traverse(f, focus, xs[1..], gridX, gridY + 1 + |below|, r, f.Level(a) + 1);
      TraverseDistinct(f, focus, xs[1..], gridX, gridY + 1 + |below|, a);
      TraverseWithin(f, focus, xs[1..], gridX, gridY + 1 + |below|, a);
      BelowDistinct(f, focus, x, gridX, gridY);
      DistinctStep(f, a, xs, Placement(x, gridX, gridY), below, rest);
      TraverseUnfold(f, focus, xs, gridX, gridY, r, f.Level(a) + 1);
    }
  }

  /** The walk below one item places no item twice, and only items below it. */
  lemma {:induction false} BelowDistinct(f: Forest, focus: Option<Id>, x: Id, gridX: int, gridY: int)
    requires f.Valid() && x in f.children && Walkable(f, f.TheRank())
    ensures var below := Below(f, focus, x, gridX, gridY, f.TheRank());
      Distinct(below) && AllUnder(f, x, f.children[x], below)
    decreases f.Bound() + 1 - f.Level(x), 0
  {
    if HasVisibleChildren(f, focus, x) {
      ChildrenLevels(f, x);
      TraverseDistinct(f, focus, f.children[x], gridX + 1, gridY + 1, x);
      TraverseWithin(f, focus, f.children[x], gridX + 1, gridY + 1, x);
    }
  }

  /** The layout from the root: rows 0, 1, ... in walk order, no column left
      of 0, column 0 holds exactly the root's children in order, and the walk
      is a `Chain`. */
  lemma LayoutFromRoot(f: Forest, focused: Id)
    requires f.Valid() && focused in f.children && IsRoot(f, focused)
    ensures var ps := Layout(f, focused);
      && RowsFrom(ps, 0) && ColumnsFrom(ps, 0) && AtColumn(ps, 0) == f.children[focused]
      && Chain(f, Some(focused), ps)
  {
    ValidWalkable(f);
    var r := f.TheRank();
    TraverseShape(f, Some(focused), f.children[focused], 0, 0, r, r.level[focused] + 1);
  }

  /** The layout from a focused item other than the root: the item itself at
      column -1 and row 0, then the walk of its children from row 1, entered
      whether the item is open or not. */
  lemma LayoutFocused(f: Forest, focused: Id)
    requires f.Valid() && focused in f.children && !IsRoot(f, focused)
    ensures Walkable(f, f.TheRank())
    ensures forall x | x in f.children[focused] :: x in f.children && f.TheRank().level[focused] + 1 <= f.TheRank().level[x]
    ensures Layout(f, focused) == [Placement(focused, -1, 0)]
              + Traverse(f, Some(focused), f.children[focused], 0, 1, f.TheRank(), f.TheRank().level[focused] + 1)
  {
    ValidWalkable(f);
    var r := f.TheRank();
    TraverseOne(f, Some(focused), focused, -1, 0, r, r.level[focused]);
  }

  /** The layout places no item twice: every visible item gets one row. */
  lemma LayoutDistinct(f: Forest, focused: Id)
    requires f.Valid() && focused in f.children
    ensures Distinct(Layout(f, focused))
  {
    ValidWalkable(f);
    ChildrenLevels(f, focused);
    var xs := f.children[focused];
    if IsRoot(f, focused) {
      TraverseDistinct(f, Some(focused), xs, 0, 0, focused);
    } else {
      LayoutFocused(f, focused);
      var rest := Traverse(f, Some(focused), xs, 0, 1, f.TheRank(), f.Level(focused) + 1);
      TraverseDistinct(f, Some(focused), xs, 0, 1, focused);
      TraverseWithin(f, Some(focused), xs, 0, 1, focused);
      var ps := [Placement(focused, -1, 0)] + rest;
      forall i, j | 0 <= i < j < |ps| ensures ps[i].item != ps[j].item {
        assert ps[j] == rest[j - 1];
        if i > 0 {
          assert ps[i] == rest[i - 1];
        } else {
          assert Under(f, focused, xs, rest[j - 1].item);
        }
      }
    }
  }

  /** A title row at column -1 followed by a walk of its children. */
  lemma TitleStep(f: Forest, focus: Option<Id>, p: Placement, rest: seq<Placement>)
    requires p.gridX == -1 && p.gridY == 0
    requires RowsFrom(rest, 1) && ColumnsFrom(rest, 0) && Chain(f, focus, rest)
    requires rest == [] ==> !Expands(f, focus, p.item)
    requires rest != [] ==> Expands(f, focus, p.item) && rest[0].gridX == 0 && rest[0].item == f.children[p.item][0]
    ensures var ps := [p] + rest;
      |ps| > 0 && ps[0] == p && ps[1..] == rest && RowsFrom(ps, 0) && Chain(f, focus, ps)
  {
    RowsStep(p, rest, [], 0);
    ChainStep(f, focus, p, rest, []);
    assert [p] + rest + [] == [p] + rest;
  }

  /** The focused item as a title, then the walk of its children. */
  lemma TitleShape(f: Forest, focused: Id, r: Rank)
    requires Walkable(f, r) && focused in f.children
    requires forall x | x in f.children[focused] :: x in f.children && r.level[focused] + 1 <= r.level[x]
    ensures var ps := [Placement(focused, -1, 0)] + Traverse(f, Some(focused), f.children[focused], 0, 1, r, r.level[focused] + 1);
      && |ps| > 0 && ps[0] == Placement(focused, -1, 0)
      && RowsFrom(ps, 0) && ColumnsFrom(ps[1..], 0) && AtColumn(ps[1..], 0) == f.children[focused]
      && Chain(f, Some(focused), ps)
  {
    var xs := f.children[focused];
    var rest := Traverse(f, Some(focused), xs, 0, 1, r, r.level[focused] + 1);
    assert && RowsFrom(rest, 1) && ColumnsFrom(rest, 0) && AtColumn(rest, 0) == xs && Chain(f, Some(focused), rest)
           && (rest == [] <==> xs == [])
           && (rest != [] ==> rest[0] == Placement(xs[0], 0, 1)) by {
      TraverseShape(f, Some(focused), xs, 0, 1, r, r.level[focused] + 1);
      TraverseColumns(f, Some(focused), xs, 0, 1, r, r.level[focused] + 1);
    }
    TitleStep(f, Some(focused), Placement(focused, -1, 0), rest);
  }

  /** The layout from any other focused item: that item first, at column -1 and
      row 0, then rows 1, 2, ... from column 0 on, where column 0 holds exactly
      its children in order, whether it is open or not. */
  lemma LayoutFromFocus(f: Forest, focused: Id)
    requires f.Valid() && focused in f.children && !IsRoot(f, focused)
    ensures var ps := Layout(f, focused);
      && |ps| > 0 && ps[0] == Placement(focused, -1, 0)
      && RowsFrom(ps, 0) && ColumnsFrom(ps[1..], 0) && AtColumn(ps[1..], 0) == f.children[focused]
      && Chain(f, Some(focused), ps)
  {
    LayoutFocused(f, focused);
    TitleShape(f, focused, f.TheRank());
  }

  // Views

  /** Constants of src/core/spacings.ts used by the views. */
  const GridSize := 28
  const TitleOffsetFromTop := -10
  const TitleFontSize := 28
  const FirstLevelFontSize := 20
  const BodyFontSize := 16

  /** The theme entries a view refers to; the colour values themselves belong
      to the theme. */
  datatype Color = Selected | FirstLevelFont | Font | FilledCircle

  /** `ItemView`: the grid cell and what is drawn there. */
  datatype View = View(gridX: int, gridY: int, item: Id, x: int, y: int, fontSize: int, textColor: Color, circleColor: Color)

  /** `getFontSize`: the title, column -1, is largest, column 0 comes next. */
  function FontSize(gridX: int): int
  {
    if gridX == -1 then TitleFontSize
    else if gridX == 0 then FirstLevelFontSize
    else BodyFontSize
  }

  /** `getTextColor` */
  function TextColor(isSelected: bool, gridX: int): Color
  {
    if isSelected then Selected
    else if gridX == -1 || gridX == 0 then FirstLevelFont
    else Font
  }

  /** `getCircleColor` */
  function CircleColor(isSelected: bool): Color
  {
    if isSelected then Selected else FilledCircle
  }

  /** `calcXCoordiante` */
  function XCoordinate(gridX: int): int
  {
    gridX * GridSize
  }

  /** `calcYCoordiante`: the focused item is drawn a little higher. */
  function YCoordinate(focused: Id, item: Id, gridY: int): int
  {
    gridY * GridSize + (if focused == item then TitleOffsetFromTop else 0)
  }

  /** An item placed at column `c` is among the items of that column. */
  lemma {:induction false} AtColumnHas(ps: seq<Placement>, c: int, i: nat)
    requires i < |ps| && ps[i].gridX == c
    ensures ps[i].item in AtColumn(ps, c)
    decreases |ps|
  {
    if i > 0 {
      AtColumnHas(ps[1..], c, i - 1);
      assert ps[1..][i - 1] == ps[i];
    }
  }

  /** Every item of column `c` is placed there. */
  lemma {:induction false} AtColumnFrom(ps: seq<Placement>, c: int, y: Id)
    requires y in AtColumn(ps, c)
    ensures exists j | 0 <= j < |ps| :: ps[j].gridX == c && ps[j].item == y
    decreases |ps|
  {
    assert ps != [];
    if !(ps[0].gridX == c && ps[0].item == y) {
      AtColumnFrom(ps[1..], c, y);
      var j :| 0 <= j < |ps[1..]| && ps[1..][j].gridX == c && ps[1..][j].item == y;
      assert ps[j + 1] == ps[1..][j];
    }
  }

  /** Where column 0 holds exactly `xs`, an item placed only once is at
      column 0 exactly when it is one of `xs`. */
  lemma ColumnZero(ps: seq<Placement>, xs: seq<Id>, i: nat)
    requires AtColumn(ps, 0) == xs && i < |ps|
    requires forall j | 0 <= j < |ps| && j != i :: ps[j].item != ps[i].item
    ensures ps[i].gridX == 0 <==> ps[i].item in xs
  {
    if ps[i].gridX == 0 {
      AtColumnHas(ps, 0, i);
    }
    if ps[i].item in xs {
      AtColumnFrom(ps, 0, ps[i].item);
      var j :| 0 <= j < |ps| && ps[j].gridX == 0 && ps[j].item == ps[i].item;
      assert j == i;
    }
  }

  /** The styles follow the tree: in the layout, the title font size goes to
      the focused item alone, the first-level size to exactly its children,
      and the first-level text colour of an unselected row to exactly those
      two kinds of item; every other row gets the body size and colour. */
  lemma LayoutFontSizes(f: Forest, focused: Id)
    requires f.Valid() && focused in f.children
    ensures var ps := Layout(f, focused);
      forall i | 0 <= i < |ps| ::
        && (FontSize(ps[i].gridX) == TitleFontSize <==> ps[i].item == focused)
        && (FontSize(ps[i].gridX) == FirstLevelFontSize <==> ps[i].item in f.children[focused])
        && (TextColor(false, ps[i].gridX) == FirstLevelFont <==> ps[i].item == focused || ps[i].item in f.children[focused])
  {
    if IsRoot(f, focused) {
      RootColumns(f, focused);
    } else {
      FocusColumns(f, focused);
    }
  }

  /** `LayoutFontSizes` in its two cases: the rows from the root, where the
      focused item is not shown and its children sit in column 0, ... */
  lemma RootColumns(f: Forest, focused: Id)
    requires f.Valid() && focused in f.children && IsRoot(f, focused)
    ensures var ps := Layout(f, focused);
      forall i | 0 <= i < |ps| ::
        ps[i].gridX >= 0 && ps[i].item != focused && (ps[i].gridX == 0 <==> ps[i].item in f.children[focused])
  {
    var ps := Layout(f, focused);
    var xs := f.children[focused];
    LayoutDistinct(f, focused);
    LayoutFromRoot(f, focused);
    ValidWalkable(f);
    ChildrenLevels(f, focused);
    TraverseWithin(f, Some(focused), xs, 0, 0, focused);
    forall i | 0 <= i < |ps|
      ensures ps[i].gridX >= 0 && ps[i].item != focused && (ps[i].gridX == 0 <==> ps[i].item in xs)
    {
      assert Under(f, focused, xs, ps[i].item);
      ColumnZero(ps, xs, i);
    }
  }

  /** ... and the rows from a focused item, which heads them in column -1. */
  lemma FocusColumns(f: Forest, focused: Id)
    requires f.Valid() && focused in f.children && !IsRoot(f, focused)
    ensures var ps := Layout(f, focused);
      && |ps| > 0 && ps[0].item == focused && ps[0].gridX == -1
      && forall i | 1 <= i < |ps| ::
        ps[i].gridX >= 0 && ps[i].item != focused && (ps[i].gridX == 0 <==> ps[i].item in f.children[focused])
  {
    var ps := Layout(f, focused);
    var xs := f.children[focused];
    LayoutDistinct(f, focused);
    LayoutFromFocus(f, focused);
    var rest := ps[1..];
    forall i | 1 <= i < |ps|
      ensures ps[i].gridX >= 0 && ps[i].item != focused && (ps[i].gridX == 0 <==> ps[i].item in xs)
    {
      assert ps[i] == rest[i - 1];
      forall j | 0 <= j < |rest| && j != i - 1 ensures rest[j].item != rest[i - 1].item {
        assert rest[j] == ps[j + 1];
      }
      ColumnZero(rest, xs, i - 1);
    }
  }

  /** Moving down goes to the next row: for every row of the layout but the
      last, `getItemBelow` of its item is the item of the next row. */
  lemma LayoutItemBelow(f: Forest, focused: Id)
    requires f.Valid() && focused in f.children
    ensures var ps := Layout(f, focused);
      forall i | 0 <= i < |ps| - 1 ::
        ps[i].item in f.children && ItemBelow(f, focused, ps[i].item) == Some(ps[i + 1].item)
  {
    if IsRoot(f, focused) {
      RootItemBelow(f, focused);
    } else {
      FocusItemBelow(f, focused);
    }
  }

  /** `LayoutItemBelow` for the rows from the root ... */
  lemma RootItemBelow(f: Forest, focused: Id)
    requires f.Valid() && focused in f.children && IsRoot(f, focused)
    ensures var ps := Layout(f, focused);
      forall i | 0 <= i < |ps| - 1 ::
        ps[i].item in f.children && ItemBelow(f, focused, ps[i].item) == Some(ps[i + 1].item)
  {
    ValidWalkable(f);
    ChildrenLevels(f, focused);
    var r := f.TheRank();
    var xs := f.children[focused];
    var ps := Traverse(f, Some(focused), xs, 0, 0, r, f.Level(focused) + 1);
    assert xs[0..] == xs;
    TraverseFollows(f, Some(focused), focused, 0, 0, 0);
    TraverseWithin(f, Some(focused), xs, 0, 0, focused);
    forall i | 0 <= i < |ps| ensures ps[i].item != focused {
      assert Under(f, focused, xs, ps[i].item);
    }
    ItemBelowRows(f, focused, ps);
    assert Layout(f, focused) == ps;
  }

  /** ... and for the rows from a focused item. */
  lemma FocusItemBelow(f: Forest, focused: Id)
    requires f.Valid() && focused in f.children && !IsRoot(f, focused)
    ensures var ps := Layout(f, focused);
      forall i | 0 <= i < |ps| - 1 ::
        ps[i].item in f.children && ItemBelow(f, focused, ps[i].item) == Some(ps[i + 1].item)
  {
    ValidWalkable(f);
    ChildrenLevels(f, focused);
    var r := f.TheRank();
    var xs := f.children[focused];
    var below := Below(f, Some(focused), focused, -1, 0, r);
    BelowFollows(f, Some(focused), focused, -1, 0);
    BelowWithin(f, Some(focused), focused, -1, 0);
    forall i | 0 <= i < |below| ensures below[i].item != focused {
      assert Under(f, focused, xs, below[i].item);
    }
    ItemBelowRows(f, focused, below);
    TraverseOne(f, Some(focused), focused, -1, 0, r, r.level[focused]);
    var ps := [Placement(focused, -1, 0)] + below;
    assert Layout(f, focused) == ps;
    forall i | 0 <= i < |ps| - 1
      ensures ps[i].item in f.children && ItemBelow(f, focused, ps[i].item) == Some(ps[i + 1].item)
    {
      if i == 0 {
        assert ps[1] == below[0];
      } else {
        assert ps[i] == below[i - 1] && ps[i + 1] == below[i];
      }
    }
  }

  /** In a walk from the focused item that keeps `Follows` and does not place
      the focused item, `getItemBelow` of each row's item is the next row's. */
  lemma ItemBelowRows(f: Forest, focused: Id, ps: seq<Placement>)
    requires f.Valid() && Follows(f, Some(focused), ps)
    requires forall i | 0 <= i < |ps| :: ps[i].item != focused
    ensures forall i | 0 <= i < |ps| - 1 ::
      ps[i].item in f.children && ItemBelow(f, focused, ps[i].item) == Some(ps[i + 1].item)
  {
    forall i | 0 <= i < |ps| - 1
      ensures ps[i].item in f.children && ItemBelow(f, focused, ps[i].item) == Some(ps[i + 1].item)
    {
      assert StepOk(f, Some(focused), ps, i);
    }
  }

  /** `createView` */
  function CreateView(focused: Id, selected: Option<Id>, item: Id, gridX: int, gridY: int): (v: View)
    ensures v.item == item && v.gridX == gridX && v.gridY == gridY
    ensures v.textColor == Selected <==> selected == Some(item)
    ensures v.circleColor == Selected <==> selected == Some(item)
  {
    var isSelected := selected == Some(item);
    View(gridX, gridY, item, XCoordinate(gridX), YCoordinate(focused, item, gridY),
         FontSize(gridX), TextColor(isSelected, gridX), CircleColor(isSelected))
  }

  /** `updateView`: every field but the item is recomputed, so an updated view
      is the view `createView` would make for its item. */
  function UpdateView(focused: Id, selected: Option<Id>, view: View, gridX: int, gridY: int): (v: View)
    ensures v == CreateView(focused, selected, view.item, gridX, gridY)
  {
    var isSelected := selected == Some(view.item);
    view.(gridX := gridX, gridY := gridY,
          x := XCoordinate(gridX), y := YCoordinate(focused, view.item, gridY),
          fontSize := FontSize(gridX), circleColor := CircleColor(isSelected),
          textColor := TextColor(isSelected, gridX))
  }

  /** The view of one placement. */
  function ViewAt(focused: Id, selected: Option<Id>, p: Placement): View
  {
    CreateView(focused, selected, p.item, p.gridX, p.gridY)
  }

  /** `m` after the placements `ps`, in order, have each set the view of their
      item. */
  function Placed(m: map<Id, View>, focused: Id, selected: Option<Id>, ps: seq<Placement>): map<Id, View>
    decreases |ps|
  {
    if ps == [] then m
    else
      var q := ps[|ps| - 1];
      Placed(m, focused, selected, ps[..|ps| - 1])[q.item := ViewAt(focused, selected, q)]
  }

  /** The views `syncViews` leaves: exactly those the layout places, whatever
      views there were before. */
  function Reconciled(f: Forest, focused: Id, selected: Option<Id>): map<Id, View>
    requires f.Valid() && focused in f.children
  {
    Placed(map[], focused, selected, Layout(f, focused))
  }

  /** Every view is filed under its own item. */
  ghost predicate Keyed(m: map<Id, View>)
  {
    forall k | k in m :: m[k].item == k
  }

  /** One more placement of the walk. */
  lemma PlacedStep(m: map<Id, View>, focused: Id, selected: Option<Id>, ps: seq<Placement>, i: nat)
    requires i < |ps|
    ensures Placed(m, focused, selected, ps[..i + 1])
            == Placed(m, focused, selected, ps[..i])[ps[i].item := ViewAt(focused, selected, ps[i])]
    ensures Items(ps[..i + 1]) == Items(ps[..i]) + {ps[i].item}
  {
    assert ps[..i + 1][..i] == ps[..i];
    assert ps[..i + 1] == ps[..i] + [ps[i]];
  }

  /** Placing adds exactly the placed items to the keys. */
  lemma {:induction false} PlacedKeys(m: map<Id, View>, focused: Id, selected: Option<Id>, ps: seq<Placement>)
    ensures Placed(m, focused, selected, ps).Keys == m.Keys + Items(ps)
    decreases |ps|
  {
    if ps != [] {
      var n := |ps| - 1;
      PlacedKeys(m, focused, selected, ps[..n]);
      assert Items(ps) == Items(ps[..n]) + {ps[n].item} by {
        assert ps == ps[..n] + [ps[n]];
      }
    }
  }

  /** Placing keeps every view filed under its own item. */
  lemma {:induction false} PlacedKeyed(m: map<Id, View>, focused: Id, selected: Option<Id>, ps: seq<Placement>)
    requires Keyed(m)
    ensures Keyed(Placed(m, focused, selected, ps))
    decreases |ps|
  {
    if ps != [] {
      PlacedKeyed(m, focused, selected, ps[..|ps| - 1]);
    }
  }

  /** The view of a placed item is the view of its last placement. */
  lemma {:induction false} PlacedLast(m: map<Id, View>, focused: Id, selected: Option<Id>, ps: seq<Placement>, k: Id)
    requires k in Items(ps)
    ensures k in Placed(m, focused, selected, ps)
    ensures exists i | 0 <= i < |ps| :: ps[i].item == k && Placed(m, focused, selected, ps)[k] == ViewAt(focused, selected, ps[i])
    decreases |ps|
  {
    PlacedKeys(m, focused, selected, ps);
    var n := |ps| - 1;
    if ps[n].item != k {
      assert k in Items(ps[..n]) by {
        var i :| 0 <= i < |ps| && ps[i].item == k;
        assert ps[..n][i] == ps[i];
      }
      PlacedLast(m, focused, selected, ps[..n], k);
      var i :| 0 <= i < n && ps[..n][i].item == k && Placed(m, focused, selected, ps[..n])[k] == ViewAt(focused, selected, ps[..n][i]);
      assert ps[i] == ps[..n][i];
    }
  }

  /** Only the placements decide the views of placed items: dropping every
      other key from `Placed(m, ps)` gives `Placed(map[], ps)`. */
  lemma {:induction false} PlacedRestricted(m: map<Id, View>, focused: Id, selected: Option<Id>, ps: seq<Placement>)
    ensures (map k | k in Placed(m, focused, selected, ps) && k in Items(ps) :: Placed(m, focused, selected, ps)[k])
            == Placed(map[], focused, selected, ps)
    decreases |ps|
  {
    if ps != [] {
      var n := |ps| - 1;
      PlacedRestricted(m, focused, selected, ps[..n]);
      assert Items(ps) == Items(ps[..n]) + {ps[n].item} by {
        assert ps == ps[..n] + [ps[n]];
      }
      PlacedKeys(m, focused, selected, ps);
      PlacedKeys(map[], focused, selected, ps);
    }
  }

  /** The reconciled views are keyed by exactly the placed items, each filed
      under its own item and showing that item's one placement. */
  lemma ReconciledViews(f: Forest, focused: Id, selected: Option<Id>)
    requires f.Valid() && focused in f.children
    ensures var ps, m := Layout(f, focused), Reconciled(f, focused, selected);
      && m.Keys == Items(ps)
      && Keyed(m)
      && forall i | 0 <= i < |ps| :: m[ps[i].item] == ViewAt(focused, selected, ps[i])
  {
    var ps := Layout(f, focused);
    var m := Reconciled(f, focused, selected);
    PlacedKeys(map[], focused, selected, ps);
    PlacedKeyed(map[], focused, selected, ps);
    LayoutDistinct(f, focused);
    forall i | 0 <= i < |ps| ensures m[ps[i].item] == ViewAt(focused, selected, ps[i]) {
      PlacedLast(map[], focused, selected, ps, ps[i].item);
      var j :| 0 <= j < |ps| && ps[j].item == ps[i].item && m[ps[i].item] == ViewAt(focused, selected, ps[j]);
      assert i == j;
    }
  }

  /** The views of an app (`AppState.views`), mutated in place by `syncViews`. */
  class ViewMap {
    var views: map<Id, View>

    /** Every view is filed under its own item. */
    ghost predicate Valid()
      reads this
    {
      Keyed(views)
    }

    constructor ()
      ensures views == map[] && Valid()
    {
      views := map[];
    }

    /** `syncViews`: a first pass over the layout updates the view of every
        placed item, or creates it, and marks it; a second pass deletes every
        view left unmarked.  The result depends only on the table, the focused
        and the selected item. */
    method SyncViews(f: Forest, focused: Id, selected: Option<Id>)
      requires f.Valid() && focused in f.children
      requires Valid()
      modifies this
      ensures views == Reconciled(f, focused, selected)
      ensures Valid()
    {
      var ps := Layout(f, focused);
      var marked := Mark(focused, selected, ps);
      ghost var placed := views;
      Sweep(marked);
      PlacedRestricted(old(views), focused, selected, ps);
      PlacedKeyed(map[], focused, selected, ps);
    }

    /** The enter and move pass: each placement, in order, updates the view
        of its item or creates one; returns the marked items. */
    method Mark(focused: Id, selected: Option<Id>, ps: seq<Placement>) returns (marked: set<Id>)
      requires Valid()
      modifies this
      ensures views == Placed(old(views), focused, selected, ps)
      ensures marked == Items(ps)
      ensures Valid()
    {
      marked := {};
      var i := 0;
      while i < |ps|
        invariant 0 <= i <= |ps|
        invariant views == Placed(old(views), focused, selected, ps[..i])
        invariant marked == Items(ps[..i])
        invariant Keyed(views)
      {
        var p := ps[i];
        if p.item in views {
          views := views[p.item := UpdateView(focused, selected, views[p.item], p.gridX, p.gridY)];
        } else {
          views := views[p.item := CreateView(focused, selected, p.item, p.gridX, p.gridY)];
        }
        marked := marked + {p.item};
        PlacedStep(old(views), focused, selected, ps, i);
        i := i + 1;
      }
      assert ps[..i] == ps;
    }

    /** The exit pass: deletes every view whose item is not marked. */
    method Sweep(marked: set<Id>)
      modifies this
      ensures views == map k | k in old(views) && k in marked :: old(views)[k]
    {
      var pending := views.Keys;
      while pending != {}
        invariant pending <= old(views).Keys
        invariant views == map k | k in old(views) && (k in marked || k in pending) :: old(views)[k]
        decreases |pending|
      {
        assert exists k :: k in pending by {
          if forall k :: k !in pending {
            assert false;
          }
        }
        var k :| k in pending;
        if k !in marked {
          views := views - {k};
        }
        pending := pending - {k};
      }
    }
  }
}
