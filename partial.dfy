/**
 * `mapPartialItem` of the two earlier generations (src/core/app.ts and
 * src/app.ts): it turns a nested description of items into items with
 * `parent` links.  Items are objects in the source; here each gets a fresh id,
 * handed out in pre-order from a given first id, so that a parent's id is
 * always smaller than its children's ids.
 */
module PartialItems {
  import opened Wrappers
  import opened Tree
  import opened Fragments

  /** `Partial<Item> | string`.  A record without `children` behaves exactly
      like one with an empty list, so the list is not optional here. */
  datatype Partial =
    | Named(name: string)
    | Record(title: Option<string>, isOpen: Option<bool>, children: seq<Partial>)

  /** Which `mapPartialItem`: the one of src/core/app.ts or of src/app.ts. */
  datatype Generation = Core | First

  /** How many items a description makes. */
  function Size(p: Partial): nat
    decreases p
  {
    match p
    case Named(_) => 1
    case Record(_, _, cs) => 1 + SizeAll(cs)
  }

  function SizeAll(ps: seq<Partial>): nat
    decreases ps
  {
    if ps == [] then 0 else Size(ps[0]) + SizeAll(ps[1..])
  }

  /** The set of ids of the top items of `ps`, laid out from `id`. */
  function TopIds(ps: seq<Partial>, id: Id): set<Id>
    decreases |ps|
  {
    if ps == [] then {} else {id} + TopIds(ps[1..], id + Size(ps[0]))
  }

  /** The ids of the top items of `ps`, laid out from `id`. */
  function ChildIds(ps: seq<Partial>, id: Id): (r: seq<Id>)
    ensures |r| == |ps|
    ensures Within(r, id, id + SizeAll(ps))
    ensures Lists(r, TopIds(ps, id))
    ensures Increasing(r)
    decreases |ps|
  {
    if ps == [] then [] else [id] + ChildIds(ps[1..], id + Size(ps[0]))
  }

  /** The `isOpen` an item gets: a string gives a closed item in src/core/app.ts
      and an open one in src/app.ts; a record keeps its own flag, and
      otherwise is open when it has children (src/core/app.ts) or always
      (src/app.ts). */
  function OpenFlag(gen: Generation, p: Partial): bool
  {
    match p
    case Named(_) => gen == First
    case Record(_, isOpen, cs) => if isOpen.Some? then isOpen.value else gen == First || |cs| > 0
  }

  /** The `title` an item gets: the string itself, or the record's title with
      `""` as default. */
  function TitleOf(p: Partial): string
  {
    match p
    case Named(n) => n
    case Record(t, _, _) => if t.Some? then t.value else ""
  }

  /** The items `mapPartialItem(p)` makes, with ids from `id` on. */
  function Mapped(gen: Generation, p: Partial, id: Id): Forest
    decreases p
  {
    match p
    case Named(n) => Forest(map[id := []], map[], map[id := OpenFlag(gen, p)], map[id := n])
    case Record(_, _, cs) =>
      Adopted(MappedAll(gen, cs, id + 1), id, ChildIds(cs, id + 1), OpenFlag(gen, p), TitleOf(p))
  }

  /** The items `children.map(mapPartialItem)` makes, with ids from `id` on. */
  function MappedAll(gen: Generation, ps: seq<Partial>, id: Id): Forest
    decreases ps
  {
    if ps == [] then Forest(map[], map[], map[], map[])
    else Union(Mapped(gen, ps[0], id), MappedAll(gen, ps[1..], id + Size(ps[0])))
  }

  /** The items made from one description take the ids `id`, ...,
      `id + Size(p) - 1`, and all but the first have a parent among them. */
  lemma {:induction false} MappedRooted(gen: Generation, p: Partial, id: Id)
    ensures Rooted(Mapped(gen, p, id), id, Size(p))
    decreases p
  {
    match p
    case Named(n) =>
    case Record(_, _, cs) =>
      MappedAllTopped(gen, cs, id + 1);
      AdoptFragment(MappedAll(gen, cs, id + 1), id, SizeAll(cs), ChildIds(cs, id + 1), TopIds(cs, id + 1),
                    OpenFlag(gen, p), TitleOf(p));
  }

  /** The items made from a list of descriptions take the ids `id`, ...,
      `id + SizeAll(ps) - 1`; those without a parent are the top ones. */
  lemma {:induction false} MappedAllTopped(gen: Generation, ps: seq<Partial>, id: Id)
    ensures Topped(MappedAll(gen, ps, id), id, SizeAll(ps), TopIds(ps, id))
    decreases ps
  {
    if ps != [] {
      MappedRooted(gen, ps[0], id);
      MappedAllTopped(gen, ps[1..], id + Size(ps[0]));
      var a, b := Mapped(gen, ps[0], id), MappedAll(gen, ps[1..], id + Size(ps[0]));
      var rest := TopIds(ps[1..], id + Size(ps[0]));
      UnionTopped(a, b, MappedAll(gen, ps, id), id, Size(ps[0]), SizeAll(ps[1..]), SizeAll(ps), {id}, rest, TopIds(ps, id));
    }
  }

  /** `mapPartialItem(p)`, with ids from `id` on. */
  function MapPartialItem(gen: Generation, p: Partial, id: Id): (f: Forest)
    ensures f.Valid() && f.Attached()
    ensures id in f.children && IsRoot(f, id)
    ensures f.title[id] == TitleOf(p) && f.isOpen[id] == OpenFlag(gen, p)
    ensures p.Named? ==> f.children[id] == []
    ensures p.Record? ==> |f.children[id]| == |p.children|
    ensures forall c | c in f.children[id] :: c in f.parent && f.parent[c] == id
  {
    MappedRooted(gen, p, id);
    FragmentValid(Mapped(gen, p, id), id, Size(p), {id});
    assert Entry(Mapped(gen, p, id), id, Size(p), {id}, id);
    Mapped(gen, p, id)
  }

  /** The tree an app starts from: the root record around the given items. */
  lemma RootTree(gen: Generation, items: seq<Partial>, f: Forest)
    requires f == MapPartialItem(gen, Record(Some("Root"), None, items), 0)
    ensures f.Valid() && 0 in f.children && IsRoot(f, 0)
    ensures items != [] ==> |f.children[0]| > 0 && f.children[0][0] in f.children
  {
    if items != [] {
      ChildLevel(f, 0, f.children[0][0]);
    }
  }
}
