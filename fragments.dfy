/**
 * Tables of items built from adjacent ranges of ids, the building blocks of
 * `mapPartialItem`: a fragment holds the items `id`, ..., `id + n - 1`, each
 * linked both ways to its parent, every parent having a smaller id than its
 * children.  Fragments side by side make one, and so does a new item that
 * takes the top items of a fragment as its children.
 */
module Fragments {
  import opened Arrays
  import opened Tree

  /** Ids in strictly increasing order. */
  ghost predicate Increasing(s: seq<Id>)
  {
    forall i, j | 0 <= i < j < |s| :: s[i] < s[j]
  }

  /** `s` lists exactly the elements of `t`. */
  ghost predicate Lists(s: seq<Id>, t: set<Id>)
  {
    forall k :: k in s <==> k in t
  }

  /** Every element of `s` is in `lo`, ..., `hi - 1`. */
  ghost predicate Within(s: seq<Id>, lo: Id, hi: Id)
  {
    forall i | 0 <= i < |s| :: lo <= s[i] < hi
  }

  /** Item `id` with the top items `ids` of `kids` as children; their `parent`
      is set last, one child after the other. */
  function Adopted(kids: Forest, id: Id, ids: seq<Id>, open: bool, title: string): Forest
  {
    Forest(kids.children[id := ids], Reparented(kids.parent, ids, id),
           kids.isOpen[id := open], kids.title[id := title])
  }

  /** `parent` with each of `ids`, in order, pointed at `id`. */
  function Reparented(parent: map<Id, Id>, ids: seq<Id>, id: Id): map<Id, Id>
    decreases |ids|
  {
    if |ids| == 0 then parent else Reparented(parent[ids[0] := id], ids[1..], id)
  }

  /** Afterwards exactly the old keys and `ids` have a parent, `id` for
      the listed ones. */
  lemma {:induction false} ReparentedSpec(parent: map<Id, Id>, ids: seq<Id>, id: Id)
    ensures forall k :: k in Reparented(parent, ids, id) <==> k in parent || k in ids
    ensures forall k | k in Reparented(parent, ids, id) ::
      Reparented(parent, ids, id)[k] == if k in ids then id else parent[k]
    decreases |ids|
  {
    if |ids| > 0 {
      ReparentedSpec(parent[ids[0] := id], ids[1..], id);
      assert ids == [ids[0]] + ids[1..];
    }
  }

  /** Two tables side by side. */
  function Union(a: Forest, b: Forest): Forest
  {
    Forest(a.children + b.children, a.parent + b.parent, a.isOpen + b.isOpen, a.title + b.title)
  }

  /** Each item with a parent points at a smaller id that lists it. */
  ghost predicate UpLink(g: Forest, x: Id)
    requires x in g.parent
  {
    x in g.children && g.parent[x] in g.children && g.parent[x] < x && x in g.children[g.parent[x]]
  }

  /** Each child listed by `x` points back at `x`. */
  ghost predicate DownLinked(g: Forest, x: Id)
    requires x in g.children
  {
    forall c | c in g.children[x] :: c in g.parent && g.parent[c] == x
  }

  /** What a fragment on the ids `id`, ..., `id + n - 1` whose items without
      a parent are `tops` demands of the id `x`: it is an item exactly when it
      is in range, with all its fields; its parent link points at a smaller
      item listing it; its children, in increasing id order, point back. */
  ghost predicate Entry(g: Forest, id: Id, n: nat, tops: set<Id>, x: Id)
  {
    && (x in g.children <==> id <= x < id + n)
    && (x in g.isOpen <==> x in g.children)
    && (x in g.title <==> x in g.children)
    && (x in tops <==> x in g.children && x !in g.parent)
    && (x in g.parent ==> UpLink(g, x))
    && (x in g.children ==> Increasing(g.children[x]) && DownLinked(g, x))
  }

  /** A fragment on the ids `id`, ..., `id + n - 1` whose items without a
      parent are exactly `tops`. */
  ghost predicate Topped(g: Forest, id: Id, n: nat, tops: set<Id>)
  {
    forall x :: Entry(g, id, n, tops, x)
  }

  /** A fragment whose only item without a parent is its first, `id`. */
  ghost predicate Rooted(g: Forest, id: Id, n: nat)
  {
    n >= 1 && Topped(g, id, n, {id})
  }

  /** The entry of one id in two fragments side by side. */
  lemma UnionEntry(a: Forest, b: Forest, id: Id, na: nat, nb: nat, ta: set<Id>, tb: set<Id>, x: Id)
    requires Topped(a, id, na, ta) && Topped(b, id + na, nb, tb)
    ensures Entry(Union(a, b), id, na + nb, ta + tb, x)
  {
    var g := Union(a, b);
    assert Entry(a, id, na, ta, x) && Entry(b, id + na, nb, tb, x);
    if x in a.parent {
      assert Entry(b, id + na, nb, tb, a.parent[x]);
    }
    if x in b.parent {
      assert Entry(a, id, na, ta, b.parent[x]);
    }
    if x in a.children {
      forall c | c in a.children[x]
        ensures c in g.parent && g.parent[c] == x
      {
        assert Entry(a, id, na, ta, c) && Entry(b, id + na, nb, tb, c);
      }
    }
  }

  /** Two fragments on adjacent id ranges make one, `g`; its items without a
      parent are those of both. */
  lemma UnionTopped(a: Forest, b: Forest, g: Forest, id: Id, na: nat, nb: nat, n: nat, ta: set<Id>, tb: set<Id>, tops: set<Id>)
    requires g == Union(a, b) && n == na + nb && tops == ta + tb
    ensures Topped(a, id, na, ta) && Topped(b, id + na, nb, tb) ==> Topped(g, id, n, tops)
  {
    if Topped(a, id, na, ta) && Topped(b, id + na, nb, tb) {
      forall x
        ensures Entry(g, id, n, tops, x)
      {
        UnionEntry(a, b, id, na, nb, ta, tb, x);
      }
    }
  }

  /** The entry of one id once item `id` adopts the top items of a fragment. */
  lemma AdoptEntry(kids: Forest, id: Id, n: nat, ids: seq<Id>, tops: set<Id>, open: bool, title: string, x: Id)
    requires Topped(kids, id + 1, n, tops) && Lists(ids, tops) && Increasing(ids)
    ensures Entry(Adopted(kids, id, ids, open, title), id, n + 1, {id}, x)
  {
    var g := Adopted(kids, id, ids, open, title);
    ReparentedSpec(kids.parent, ids, id);
    assert Entry(kids, id + 1, n, tops, x);
    if x in kids.parent {
      assert Entry(kids, id + 1, n, tops, kids.parent[x]);
    }
    if x in kids.children {
      forall c | c in kids.children[x]
        ensures c in g.parent && g.parent[c] == x
      {
        assert Entry(kids, id + 1, n, tops, c);
      }
    }
  }

  /** A new item taking the top items of a fragment as its children. */
  lemma AdoptFragment(kids: Forest, id: Id, n: nat, ids: seq<Id>, tops: set<Id>, open: bool, title: string)
    requires Topped(kids, id + 1, n, tops) && Lists(ids, tops) && Increasing(ids)
    ensures Rooted(Adopted(kids, id, ids, open, title), id, n + 1)
  {
    var g, m, root := Adopted(kids, id, ids, open, title), n + 1, {id};
    forall x
      ensures Entry(g, id, m, root, x)
    {
      AdoptEntry(kids, id, n, ids, tops, open, title, x);
    }
  }

  /** A fragment is a consistent table, free of cycles, where every item
      with a parent is among that parent's children. */
  lemma FragmentValid(g: Forest, id: Id, n: nat, tops: set<Id>)
    requires Topped(g, id, n, tops)
    ensures g.WellFormed() && g.Valid() && g.Attached()
  {
    forall x
      ensures x in g.parent ==> UpLink(g, x)
      ensures x in g.children ==> NoDup(g.children[x]) && DownLinked(g, x) && id <= x < id + n
    {
      assert Entry(g, id, n, tops, x);
    }
    assert g.isOpen.Keys == g.children.Keys by {
      forall x ensures x in g.isOpen <==> x in g.children {
        assert Entry(g, id, n, tops, x);
      }
    }
    assert g.title.Keys == g.children.Keys by {
      forall x ensures x in g.title <==> x in g.children {
        assert Entry(g, id, n, tops, x);
      }
    }
    var r := Rank(map k | k in g.children :: k - id, n);
    assert g.RankedBy(r);
  }
}
