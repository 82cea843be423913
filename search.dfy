/**
 * Local search of the sidebar (src/ui/leftSidebar/modal.text.ts): the items
 * below a given one, breadth first, whose lowercased title contains every
 * word of the search term, at most 25 of them; and for each, the stretches
 * of its title to draw in bold.
 *
 * Titles are strings of `char`; `toLocaleLowerCase` is taken as ASCII
 * lowercasing, which keeps every position of the title in place.
 */
module Search {
  import opened Wrappers
  import opened Tree
  import Arrays

  // ---------------------------------------------------------------------------
  // all
  // ---------------------------------------------------------------------------

  /** `all(arr, predicate)`: stops at the first element the predicate rejects. */
  method All<T>(arr: seq<T>, test: T -> bool) returns (r: bool)
    ensures r <==> forall i | 0 <= i < |arr| :: test(arr[i])
  {
    for i := 0 to |arr|
      invariant forall j | 0 <= j < i :: test(arr[j])
    {
      if !test(arr[i]) {
        return false;
      }
    }
    return true;
  }

  // ---------------------------------------------------------------------------
  // Strings
  // ---------------------------------------------------------------------------

  /** ASCII lowercasing of one character. */
  function LowerChar(c: char): char
  {
    if 'A' <= c <= 'Z' then (c as int + 32) as char else c
  }

  /** `toLocaleLowerCase`, character by character. */
  function Lower(s: string): (r: string)
    ensures |r| == |s|
  {
    if s == [] then [] else [LowerChar(s[0])] + Lower(s[1..])
  }

  /** Lowercasing works character by character. */
  lemma {:induction false} LowerAt(s: string)
    ensures forall i | 0 <= i < |s| :: Lower(s)[i] == LowerChar(s[i])
  {
    if s != [] {
      LowerAt(s[1..]);
      assert forall i | 1 <= i < |s| :: Lower(s)[i] == Lower(s[1..])[i - 1];
    }
  }

  /** A lowercased string is its own lowercase. */
  lemma LowerIdempotent(s: string)
    ensures Lower(Lower(s)) == Lower(s)
  {
    var l := Lower(s);
    LowerAt(s);
    LowerAt(l);
    assert forall i | 0 <= i < |l| :: LowerChar(l[i]) == l[i];
  }

  /** `s.split(sep)`: the pieces between separators, empty ones included;
      the empty string gives one empty piece. */
  function Split(s: string, sep: char): (r: seq<string>)
    ensures |r| >= 1
    ensures forall i | 0 <= i < |r| :: sep !in r[i]
  {
    if s == [] then [[]]
    else
      var rest := Split(s[1..], sep);
      if s[0] == sep then [[]] + rest
      else [[s[0]] + rest[0]] + rest[1..]
  }

  /** `parts.join(sep)`. */
  function Join(parts: seq<string>, sep: char): string
  {
    if parts == [] then []
    else if |parts| == 1 then parts[0]
    else parts[0] + [sep] + Join(parts[1..], sep)
  }

  /** Joining the pieces of a split gives the string back. */
  lemma {:induction false} JoinSplit(s: string, sep: char)
    ensures Join(Split(s, sep), sep) == s
  {
    if s != [] {
      var rest := Split(s[1..], sep);
      JoinSplit(s[1..], sep);
      if s[0] == sep {
        assert ([[]] + rest)[1..] == rest;
      } else if |rest| > 1 {
        assert ([[s[0]] + rest[0]] + rest[1..])[1..] == rest[1..];
      }
    }
  }

  /** Splitting pieces that hold no separator, joined by it, gives them back. */
  lemma {:induction false} SplitJoin(parts: seq<string>, sep: char)
    requires |parts| >= 1 && forall i | 0 <= i < |parts| :: sep !in parts[i]
    ensures Split(Join(parts, sep), sep) == parts
    decreases |parts|, |parts[0]|
  {
    var p := parts[0];
    if p == [] {
      if |parts| > 1 {
        SplitJoin(parts[1..], sep);
        assert Join(parts, sep) == [sep] + Join(parts[1..], sep);
      }
    } else {
      var shorter := [p[1..]] + parts[1..];
      assert shorter[1..] == parts[1..];
      SplitJoin(shorter, sep);
      assert Join(parts, sep) == [p[0]] + Join(shorter, sep);
      assert ([p[0]] + Join(shorter, sep))[1..] == Join(shorter, sep);
      assert [p[0]] + p[1..] == p;
    }
  }

  /** Every character of a piece is a character of the string. */
  lemma {:induction false} SplitChars(s: string, sep: char)
    ensures forall i, c | 0 <= i < |Split(s, sep)| && c in Split(s, sep)[i] :: c in s
  {
    if s != [] {
      var rest := Split(s[1..], sep);
      SplitChars(s[1..], sep);
      var r := Split(s, sep);
      forall i, c | 0 <= i < |r| && c in r[i] ensures c in s {
        if s[0] == sep {
          assert r[i] == if i == 0 then [] else rest[i - 1];
        } else if i == 0 {
          assert c == s[0] || c in rest[0];
        } else {
          assert r[i] == rest[i];
        }
        assert c == s[0] || c in s[1..];
      }
    }
  }

  /** `filter((x) => x)`: the non-empty strings, in order. */
  function NonEmpty(ss: seq<string>): (r: seq<string>)
    ensures forall i | 0 <= i < |r| :: r[i] != [] && r[i] in ss
  {
    if ss == [] then []
    else (if ss[0] != [] then [ss[0]] else []) + NonEmpty(ss[1..])
  }

  /** The search terms: the lowercased input split on spaces, empty pieces
      dropped. */
  function Terms(term: string): seq<string>
  {
    NonEmpty(Split(Lower(term), ' '))
  }

  /** Every term is a non-empty lowercase word without spaces. */
  lemma TermsWords(term: string)
    ensures forall i | 0 <= i < |Terms(term)| ::
      var t := Terms(term)[i]; t != [] && ' ' !in t && Lower(t) == t
  {
    var l := Lower(term);
    LowerAt(term);
    SplitChars(l, ' ');
    forall i | 0 <= i < |Terms(term)| ensures Lower(Terms(term)[i]) == Terms(term)[i] {
      var t := Terms(term)[i];
      forall j | 0 <= j < |t| ensures LowerChar(t[j]) == t[j] {
        assert t[j] in l;
      }
      LowerAt(t);
    }
  }

  /** `t` occurs in `s` at position `i`. */
  predicate At(s: string, t: string, i: int)
  {
    0 <= i && i + |t| <= |s| && s[i..i + |t|] == t
  }

  /** `s.indexOf(t, i)` for a substring `t`. */
  function IndexFrom(s: string, t: string, i: nat): int
    decreases |s| - i
  {
    if i + |t| > |s| then -1
    else if s[i..i + |t|] == t then i
    else IndexFrom(s, t, i + 1)
  }

  /** `s.indexOf(t)` */
  function StringIndexOf(s: string, t: string): int
  {
    IndexFrom(s, t, 0)
  }

  lemma {:induction false} IndexFromFirst(s: string, t: string, i: nat)
    ensures var r := IndexFrom(s, t, i);
      && (r >= 0 ==> i <= r && At(s, t, r) && forall j | i <= j < r :: !At(s, t, j))
      && (r < 0 ==> r == -1 && forall j | i <= j :: !At(s, t, j))
    decreases |s| - i
  {
    if i + |t| <= |s| && s[i..i + |t|] != t {
      IndexFromFirst(s, t, i + 1);
    }
  }

  /** `indexOf` finds the first occurrence, or gives -1 when there is none. */
  lemma StringIndexOfFirst(s: string, t: string)
    ensures var r := StringIndexOf(s, t);
      && (r >= 0 ==> At(s, t, r) && forall j | 0 <= j < r :: !At(s, t, j))
      && (r < 0 ==> r == -1 && forall j :: !At(s, t, j))
  {
    IndexFromFirst(s, t, 0);
  }

  // ---------------------------------------------------------------------------
  // traverseChildrenBFS
  // ---------------------------------------------------------------------------

  /** Every entry of a queue is an item of the tree. */
  ghost predicate Queued(f: Forest, q: seq<Id>)
  {
    forall i | 0 <= i < |q| :: q[i] in f.children
  }

  lemma QueuedJoin(f: Forest, a: seq<Id>, b: seq<Id>)
    requires Queued(f, a) && Queued(f, b)
    ensures Queued(f, a + b)
  {
    forall i | 0 <= i < |a + b| ensures (a + b)[i] in f.children {
      if i >= |a| {
        assert (a + b)[i] == b[i - |a|];
      }
    }
  }

  lemma ChildrenQueued(f: Forest, x: Id)
    requires f.Valid() && x in f.children
    ensures Queued(f, f.children[x])
  {
    forall i | 0 <= i < |f.children[x]| ensures f.children[x][i] in f.children {
      ChildLevel(f, x, f.children[x][i]);
    }
  }

  /** The work left in a queue: each entry and everything below it. */
  ghost function Weight(f: Forest, q: seq<Id>): nat
    requires f.Valid() && Queued(f, q)
  {
    if q == [] then 0 else 1 + |Descendants(f, q[0])| + Weight(f, q[1..])
  }

  lemma {:induction false} WeightJoin(f: Forest, a: seq<Id>, b: seq<Id>)
    requires f.Valid() && Queued(f, a) && Queued(f, b)
    ensures Queued(f, a + b) && Weight(f, a + b) == Weight(f, a) + Weight(f, b)
  {
    QueuedJoin(f, a, b);
    if a == [] {
      assert a + b == b;
    } else {
      assert (a + b)[1..] == a[1..] + b;
      WeightJoin(f, a[1..], b);
    }
  }

  lemma {:induction false} WeightOf(f: Forest, a: Id, xs: seq<Id>)
    requires f.Valid() && a in f.children
    requires forall i | 0 <= i < |xs| :: xs[i] in f.children[a]
    ensures Queued(f, xs) && Weight(f, xs) == |DescendantsOf(f, a, xs)|
  {
    ChildrenLevels(f, a);
    if xs != [] {
      var c := xs[0];
      WeightOf(f, a, xs[1..]);
      var below := if |f.children[c]| > 0 then DescendantsOf(f, c, f.children[c]) else [];
      assert |below| == |Descendants(f, c)|;
      assert DescendantsOf(f, a, xs) == [c] + below + DescendantsOf(f, a, xs[1..]);
    }
  }

  /** Taking an item off the queue and putting its children on lessens the
      work left by one. */
  lemma Step(f: Forest, q: seq<Id>)
    requires f.Valid() && Queued(f, q) && q != []
    ensures Queued(f, q[1..] + f.children[q[0]])
    ensures Weight(f, q[1..] + f.children[q[0]]) == Weight(f, q) - 1
  {
    WeightOf(f, q[0], f.children[q[0]]);
    WeightJoin(f, q[1..], f.children[q[0]]);
  }

  /** The order in which items leave the queue of `traverseChildrenBFS`,
      with no cap on the results. */
  function Bfs(f: Forest, q: seq<Id>): (r: seq<Id>)
    requires f.Valid() && Queued(f, q)
    decreases Weight(f, q)
  {
    if q == [] then []
    else
      Step(f, q);
      [q[0]] + Bfs(f, q[1..] + f.children[q[0]])
  }

  lemma BfsCons(f: Forest, q: seq<Id>)
    requires f.Valid() && Queued(f, q) && q != []
    ensures Queued(f, q[1..] + f.children[q[0]])
    ensures Bfs(f, q) == [q[0]] + Bfs(f, q[1..] + f.children[q[0]])
  {
    Step(f, q);
  }

  /** The children of the items of `q`, in order. */
  function Kids(f: Forest, q: seq<Id>): seq<Id>
    requires Queued(f, q)
  {
    if q == [] then [] else f.children[q[0]] + Kids(f, q[1..])
  }

  lemma {:induction false} KidsQueued(f: Forest, q: seq<Id>)
    requires f.Valid() && Queued(f, q)
    ensures Queued(f, Kids(f, q))
  {
    if q != [] {
      ChildrenQueued(f, q[0]);
      KidsQueued(f, q[1..]);
      QueuedJoin(f, f.children[q[0]], Kids(f, q[1..]));
    }
  }

  /** Breadth first: the queue `a + b` is visited as `a`, then what `b`
      followed by the children of `a` leads to. */
  lemma {:induction false} BfsLevels(f: Forest, a: seq<Id>, b: seq<Id>)
    requires f.Valid() && Queued(f, a) && Queued(f, b)
    ensures Queued(f, a + b) && Queued(f, b + Kids(f, a))
    ensures Bfs(f, a + b) == a + Bfs(f, b + Kids(f, a))
    decreases |a|
  {
    QueuedJoin(f, a, b);
    KidsQueued(f, a);
    QueuedJoin(f, b, Kids(f, a));
    if a == [] {
      assert a + b == b + Kids(f, a);
    } else {
      var x := a[0];
      ChildrenQueued(f, x);
      QueuedJoin(f, b, f.children[x]);
      assert (a + b)[0] == x && (a + b)[1..] == a[1..] + b;
      BfsLevels(f, a[1..], b + f.children[x]);
      assert (a[1..] + b) + f.children[x] == a[1..] + (b + f.children[x]);
      assert b + f.children[x] + Kids(f, a[1..]) == b + Kids(f, a);
      assert [x] + a[1..] == a;
    }
  }

  /** The walk from one item: the item itself, then its children, then all
      that lies below them level by level. */
  lemma BfsFrom(f: Forest, item: Id)
    requires f.Valid() && item in f.children
    ensures Queued(f, f.children[item])
    ensures Bfs(f, [item]) == [item] + Bfs(f, f.children[item])
  {
    ChildrenQueued(f, item);
    BfsLevels(f, [item], []);
    assert [item] + [] == [item];
    assert Kids(f, [item]) == f.children[item] + Kids(f, []);
    assert [] + f.children[item] == f.children[item];
  }

  /** The defined results of `filterMap` over `items`, in order. */
  function Chosen<T>(filterMap: Id -> Option<T>, items: seq<Id>): seq<T>
  {
    if items == [] then []
    else
      var head := filterMap(items[0]);
      (if head.Some? then [head.value] else []) + Chosen(filterMap, items[1..])
  }

  /** Taking one item off the front of a walk. */
  lemma ChosenCons<T>(filterMap: Id -> Option<T>, x: Id, rest: seq<Id>)
    ensures Chosen(filterMap, [x] + rest)
      == (if filterMap(x).Some? then [filterMap(x).value] else []) + Chosen(filterMap, rest)
  {
    assert ([x] + rest)[1..] == rest;
  }

  /** The first `n` elements of `s`, or all of it when it is shorter. */
  function Take<T>(s: seq<T>, n: int): (r: seq<T>)
    ensures n <= 0 ==> r == []
    ensures 0 < n ==> |r| == if |s| < n then |s| else n
    ensures r <= s
  {
    if n <= 0 then [] else if |s| <= n then s else s[..n]
  }

  /** One step of the queue: the item in front leaves it, its children join
      at the back, and its answer, if any, joins the results. */
  lemma QueueStep<T>(f: Forest, filterMap: Id -> Option<T>, all: seq<T>, results: seq<T>, queue: seq<Id>)
    requires f.Valid() && Queued(f, queue) && queue != []
    requires all == results + Chosen(filterMap, Bfs(f, queue))
    ensures Queued(f, queue[1..] + f.children[queue[0]])
    ensures var x := queue[0];
      all == (if filterMap(x).Some? then results + [filterMap(x).value] else results)
             + Chosen(filterMap, Bfs(f, queue[1..] + f.children[x]))
  {
    var x := queue[0];
    BfsCons(f, queue);
    var next := queue[1..] + f.children[x];
    var later := Bfs(f, next);
    var head := if filterMap(x).Some? then [filterMap(x).value] else [];
    ChosenCons(filterMap, x, later);
    assert Chosen(filterMap, Bfs(f, queue)) == head + Chosen(filterMap, later);
    assert results + (head + Chosen(filterMap, later)) == (results + head) + Chosen(filterMap, later);
  }

  /** `traverseChildrenBFS(item, filterMap, maxResults)`: a queue starting
      with `item`; each item taken off the front is offered to `filterMap`
      and has its children put at the back, until the queue runs dry or
      `maxResults` results are found.  The results are the first
      `maxResults` defined answers of `filterMap` in breadth-first order. */
  method TraverseChildrenBfs<T>(f: Forest, item: Id, filterMap: Id -> Option<T>, maxResults: int)
    returns (results: seq<T>)
    requires f.Valid() && item in f.children
    ensures results == Take(Chosen(filterMap, Bfs(f, [item])), maxResults)
  {
    ghost var all := Chosen(filterMap, Bfs(f, [item]));
    results := [];
    var queue := [item];
    while queue != [] && |results| < maxResults
      invariant Queued(f, queue)
      invariant all == results + Chosen(filterMap, Bfs(f, queue))
      invariant |results| <= if maxResults > 0 then maxResults else 0
      decreases Weight(f, queue)
    {
      var x := queue[0];
      QueueStep(f, filterMap, all, results, queue);
      Step(f, queue);
      queue := queue[1..] + f.children[x];
      var found := filterMap(x);
      if found.Some? {
        results := results + [found.value];
      }
    }
    if queue == [] {
      assert all == results + [];
    }
  }

  /** What the walk from a queue reaches lies below one of its entries. */
  lemma {:induction false} BfsWithin(f: Forest, q: seq<Id>)
    requires f.Valid() && Queued(f, q)
    ensures forall y | y in Bfs(f, q) ::
      y in f.children && exists i | 0 <= i < |q| :: InSubtree(f, y, q[i])
    decreases Weight(f, q)
  {
    if q != [] {
      var x := q[0];
      BfsCons(f, q);
      Step(f, q);
      var next := q[1..] + f.children[x];
      BfsWithin(f, next);
      forall y | y in Bfs(f, q)
        ensures y in f.children && exists i | 0 <= i < |q| :: InSubtree(f, y, q[i])
      {
        if y == x {
          assert InSubtree(f, y, q[0]);
        } else {
          assert y in Bfs(f, next);
          var j :| 0 <= j < |next| && InSubtree(f, y, next[j]);
          if j < |q| - 1 {
            assert next[j] == q[j + 1];
          } else {
            var c := next[j];
            assert c in f.children[x];
            ChildLevel(f, x, c);
            InSubtreeStep(f, y, c);
            assert InSubtree(f, y, q[0]);
          }
        }
      }
    }
  }

  /** `forEachChild` on a list of children: the first child, what lies below
      it, then the rest. */
  lemma DescendantsOfCons(f: Forest, a: Id, xs: seq<Id>)
    requires f.Valid() && a in f.children && xs != []
    requires forall i | 0 <= i < |xs| :: xs[i] in f.children[a]
    ensures xs[0] in f.children
    ensures DescendantsOf(f, a, xs) == [xs[0]] + Descendants(f, xs[0]) + DescendantsOf(f, a, xs[1..])
  {
    ChildLevel(f, a, xs[0]);
  }

  /** An item called back by `forEachChild` on a list of children is one of
      them or lies below one of them. */
  lemma {:induction false} DescendantsOfFrom(f: Forest, a: Id, xs: seq<Id>, y: Id)
    requires f.Valid() && a in f.children
    requires forall i | 0 <= i < |xs| :: xs[i] in f.children[a]
    requires y in DescendantsOf(f, a, xs)
    ensures exists k | 0 <= k < |xs| :: xs[k] in f.children && (y == xs[k] || y in Descendants(f, xs[k]))
    decreases |xs|
  {
    DescendantsOfCons(f, a, xs);
    if y != xs[0] && y !in Descendants(f, xs[0]) {
      DescendantsOfFrom(f, a, xs[1..], y);
      var k :| 0 <= k < |xs[1..]| && xs[1..][k] in f.children
        && (y == xs[1..][k] || y in Descendants(f, xs[1..][k]));
      assert xs[1..][k] == xs[k + 1];
    }
  }

  /** The walk from a queue reaches every entry and everything below it. */
  lemma {:induction false} BfsCovers(f: Forest, q: seq<Id>, i: int, y: Id)
    requires f.Valid() && Queued(f, q) && 0 <= i < |q|
    requires y == q[i] || y in Descendants(f, q[i])
    ensures y in Bfs(f, q)
    decreases Weight(f, q)
  {
    var x := q[0];
    Step(f, q);
    var next := q[1..] + f.children[x];
    if i != 0 || y != x {
      var j := NextCovers(f, q, i, y);
      BfsCovers(f, next, j, y);
      BfsLater(f, q, y);
    } else {
      BfsCons(f, q);
    }
  }

  /** Where `y` sits in the next queue, once the front of the queue, when it
      is not `y` itself, has been replaced by its children. */
  lemma NextCovers(f: Forest, q: seq<Id>, i: int, y: Id) returns (j: int)
    requires f.Valid() && Queued(f, q) && 0 <= i < |q|
    requires y == q[i] || y in Descendants(f, q[i])
    requires i != 0 || y != q[0]
    ensures Queued(f, q[1..] + f.children[q[0]])
    ensures var next := q[1..] + f.children[q[0]];
      0 <= j < |next| && (y == next[j] || y in Descendants(f, next[j]))
  {
    ChildrenQueued(f, q[0]);
    QueuedJoin(f, q[1..], f.children[q[0]]);
    var next := q[1..] + f.children[q[0]];
    if i == 0 {
      var k := DescendantVia(f, q[0], y);
      j := |q| - 1 + k;
      assert next[j] == f.children[q[0]][k];
    } else {
      j := i - 1;
      assert next[j] == q[i];
    }
  }

  /** What the walk of the next queue visits, the walk of the queue visits. */
  lemma BfsLater(f: Forest, q: seq<Id>, y: Id)
    requires f.Valid() && Queued(f, q) && q != []
    requires Queued(f, q[1..] + f.children[q[0]]) && y in Bfs(f, q[1..] + f.children[q[0]])
    ensures y in Bfs(f, q)
  {
    BfsCons(f, q);
  }

  /** The child of `x` that a descendant `y` of `x` is, or lies below. */
  lemma DescendantVia(f: Forest, x: Id, y: Id) returns (k: nat)
    requires f.Valid() && x in f.children && y in Descendants(f, x)
    ensures k < |f.children[x]| && f.children[x][k] in f.children
    ensures y == f.children[x][k] || y in Descendants(f, f.children[x][k])
  {
    DescendantsOfFrom(f, x, f.children[x], y);
    k :| 0 <= k < |f.children[x]| && f.children[x][k] in f.children
      && (y == f.children[x][k] || y in Descendants(f, f.children[x][k]));
  }

  /** The walk from an item visits exactly the item and what lies below it:
      it starts at the item, reaches every descendant, and nothing else. */
  lemma BfsSubtree(f: Forest, item: Id)
    requires f.Valid() && item in f.children
    ensures Bfs(f, [item]) != [] && Bfs(f, [item])[0] == item
    ensures forall y | y in Bfs(f, [item]) :: y in f.children && InSubtree(f, y, item)
    ensures forall y | y in Descendants(f, item) :: y in Bfs(f, [item])
    ensures f.Attached() ==> forall y | y in f.children && InSubtree(f, y, item) :: y in Bfs(f, [item])
  {
    BfsCons(f, [item]);
    BfsWithin(f, [item]);
    forall y | y in Descendants(f, item) ensures y in Bfs(f, [item]) {
      BfsCovers(f, [item], 0, y);
    }
    if f.Attached() {
      forall y | y in f.children && InSubtree(f, y, item) ensures y in Bfs(f, [item]) {
        if y != item {
          DescendantsComplete(f, item, y);
        }
      }
    }
  }

  /** Every defined answer of `filterMap` in a walk comes from an item of it. */
  lemma {:induction false} ChosenFrom<T>(filterMap: Id -> Option<T>, items: seq<Id>)
    ensures forall k | 0 <= k < |Chosen(filterMap, items)| :: exists j | 0 <= j < |items| ::
      filterMap(items[j]).Some? && filterMap(items[j]).value == Chosen(filterMap, items)[k]
  {
    if items != [] {
      ChosenFrom(filterMap, items[1..]);
      var head := if filterMap(items[0]).Some? then [filterMap(items[0]).value] else [];
      var rest := Chosen(filterMap, items[1..]);
      var all := Chosen(filterMap, items);
      assert all == head + rest;
      forall k | 0 <= k < |all| ensures exists j | 0 <= j < |items| ::
        filterMap(items[j]).Some? && filterMap(items[j]).value == all[k]
      {
        if k < |head| {
          assert filterMap(items[0]).Some? && filterMap(items[0]).value == all[k];
        } else {
          assert all[k] == rest[k - |head|];
          var j :| 0 <= j < |items[1..]| && filterMap(items[1..][j]).Some?
            && filterMap(items[1..][j]).value == rest[k - |head|];
          assert items[j + 1] == items[1..][j];
        }
      }
      assert forall k | 0 <= k < |all| :: exists j | 0 <= j < |items| ::
        filterMap(items[j]).Some? && filterMap(items[j]).value == all[k];
    } else {
      assert Chosen(filterMap, items) == [];
    }
  }

  /** Every item of a walk with a defined answer contributes it. */
  lemma {:induction false} ChosenHas<T>(filterMap: Id -> Option<T>, items: seq<Id>, j: int)
    requires 0 <= j < |items| && filterMap(items[j]).Some?
    ensures filterMap(items[j]).value in Chosen(filterMap, items)
  {
    if j > 0 {
      ChosenHas(filterMap, items[1..], j - 1);
      assert items[1..][j - 1] == items[j];
    }
  }

  // ---------------------------------------------------------------------------
  // Highlights: createTermsFound, createTitleHighlightsFromFoundTerms
  // ---------------------------------------------------------------------------

  /** `TermsFound`: a term and where `indexOf` found it. */
  datatype TermFound = TermFound(term: string, foundAt: int)

  /** `Highlight`: the stretch `from`..`to` of a title. */
  datatype Highlight = Highlight(from: int, to: int)

  ghost predicate SortedByFoundAt(ts: seq<TermFound>)
  {
    forall i, j | 0 <= i < j < |ts| :: ts[i].foundAt <= ts[j].foundAt
  }

  /** Puts `t` in front of the first entry found no earlier than it. */
  function Insert(t: TermFound, ts: seq<TermFound>): (r: seq<TermFound>)
    ensures multiset(r) == multiset(ts) + multiset{t}
  {
    if ts == [] || t.foundAt <= ts[0].foundAt then [t] + ts
    else
      assert ts == [ts[0]] + ts[1..];
      [ts[0]] + Insert(t, ts[1..])
  }

  lemma {:induction false} InsertSorted(t: TermFound, ts: seq<TermFound>)
    requires SortedByFoundAt(ts)
    ensures SortedByFoundAt(Insert(t, ts))
  {
    if ts != [] && t.foundAt > ts[0].foundAt {
      InsertSorted(t, ts[1..]);
      InsertAbove(t, ts[1..], ts[0].foundAt);
      SortedCons(ts[0], Insert(t, ts[1..]));
    }
  }

  /** Inserting an entry no earlier than `lo` among entries no earlier than
      `lo` gives entries no earlier than `lo`. */
  lemma InsertAbove(t: TermFound, ts: seq<TermFound>, lo: int)
    requires lo <= t.foundAt && forall k | 0 <= k < |ts| :: lo <= ts[k].foundAt
    ensures forall k | 0 <= k < |Insert(t, ts)| :: lo <= Insert(t, ts)[k].foundAt
  {
    var r := Insert(t, ts);
    forall k | 0 <= k < |r| ensures lo <= r[k].foundAt {
      assert r[k] in multiset(r);
      if r[k] != t {
        assert r[k] in ts;
      }
    }
  }

  /** An entry no later than every entry of a sorted list, put in front. */
  lemma SortedCons(h: TermFound, rest: seq<TermFound>)
    requires SortedByFoundAt(rest) && forall k | 0 <= k < |rest| :: h.foundAt <= rest[k].foundAt
    ensures SortedByFoundAt([h] + rest)
  {
    var r := [h] + rest;
    forall i, j | 0 <= i < j < |r| ensures r[i].foundAt <= r[j].foundAt {
      assert r[j] == rest[j - 1];
      if i > 0 {
        assert r[i] == rest[i - 1];
      }
    }
  }

  /** `.sort((prev, next) => prev.foundAt - next.foundAt)`: the same entries,
      ordered by position.  The first entry goes in front of every entry
      found at the same place in the sorted rest, so such entries keep their
      original order, as the stable sort of the language does. */
  function SortByFoundAt(ts: seq<TermFound>): (r: seq<TermFound>)
    ensures multiset(r) == multiset(ts)
    ensures SortedByFoundAt(r)
  {
    if ts == [] then []
    else
      var rest := SortByFoundAt(ts[1..]);
      InsertSorted(ts[0], rest);
      assert ts == [ts[0]] + ts[1..];
      Insert(ts[0], rest)
  }

  /** The `foundsAt` Map: its keys in insertion order, and the term kept for
      each key. */
  datatype FoundsAt = FoundsAt(keys: seq<int>, terms: map<int, string>)

  /** One `forEach` step: a term is kept for its position when the position
      has none yet, or only a shorter one; a key set again keeps its place. */
  function Record(m: FoundsAt, t: TermFound): FoundsAt
  {
    if t.foundAt !in m.terms then FoundsAt(m.keys + [t.foundAt], m.terms[t.foundAt := t.term])
    else if |m.terms[t.foundAt]| < |t.term| then FoundsAt(m.keys, m.terms[t.foundAt := t.term])
    else m
  }

  /** The Map after the `forEach` over `ts`. */
  function Fold(ts: seq<TermFound>): (r: FoundsAt)
    ensures forall i | 0 <= i < |r.keys| :: r.keys[i] in r.terms
    ensures forall k | k in r.terms :: k in r.keys
  {
    if ts == [] then FoundsAt([], map[])
    else Record(Fold(ts[..|ts| - 1]), ts[|ts| - 1])
  }

  /** `Array.from(foundsAt.entries()).map(...)`. */
  function Entries(m: FoundsAt): seq<Highlight>
    requires forall i | 0 <= i < |m.keys| :: m.keys[i] in m.terms
  {
    seq(|m.keys|, i requires 0 <= i < |m.keys| => Highlight(m.keys[i], m.keys[i] + |m.terms[m.keys[i]]|))
  }

  /** `createTitleHighlightsFromFoundTerms(terms)`, as a value. */
  function TitleHighlights(ts: seq<TermFound>): seq<Highlight>
  {
    Entries(Fold(ts))
  }

  /** A step keeps every key, with a term no shorter, and leaves the entry's
      position with a term at least as long as the entry's. */
  lemma RecordGrows(m: FoundsAt, t: TermFound)
    ensures var n := Record(m, t);
      && (forall k | k in m.terms :: k in n.terms && |m.terms[k]| <= |n.terms[k]|)
      && t.foundAt in n.terms && |t.term| <= |n.terms[t.foundAt]|
      && (forall k | k in n.terms :: (k in m.terms && n.terms[k] == m.terms[k]) || (k == t.foundAt && n.terms[k] == t.term))
  {
  }

  /** Each key of `m` is the position of an entry of `ts`, with its term. */
  ghost predicate Witnessed(ts: seq<TermFound>, m: FoundsAt)
  {
    forall k | k in m.terms :: exists j | 0 <= j < |ts| :: ts[j].foundAt == k && ts[j].term == m.terms[k]
  }

  /** Each entry's position is a key of `m`, kept with a term at least as long. */
  ghost predicate Longest(ts: seq<TermFound>, m: FoundsAt)
  {
    forall j | 0 <= j < |ts| :: ts[j].foundAt in m.terms && |ts[j].term| <= |m.terms[ts[j].foundAt]|
  }

  /** Each key is the position of some entry, with that entry's term. */
  lemma {:induction false} FoldWitness(ts: seq<TermFound>)
    ensures Witnessed(ts, Fold(ts))
  {
    if ts != [] {
      var p := ts[..|ts| - 1];
      var t := ts[|ts| - 1];
      var mp := Fold(p);
      FoldWitness(p);
      assert Witnessed(p, mp);
      var m := Fold(ts);
      assert m == Record(mp, t);
      RecordGrows(mp, t);
      forall k | k in m.terms
        ensures exists j | 0 <= j < |ts| :: ts[j].foundAt == k && ts[j].term == m.terms[k]
      {
        if k in mp.terms && m.terms[k] == mp.terms[k] {
          var j :| 0 <= j < |p| && p[j].foundAt == k && p[j].term == mp.terms[k];
          assert ts[j] == p[j];
        } else {
          assert ts[|ts| - 1].foundAt == k && ts[|ts| - 1].term == m.terms[k];
        }
      }
    }
  }

  /** Every entry's position is a key, whose term is at least as long as the
      entry's: the longest term found at a position wins. */
  lemma {:induction false} FoldLongest(ts: seq<TermFound>)
    ensures Longest(ts, Fold(ts))
  {
    if ts != [] {
      var p := ts[..|ts| - 1];
      var t := ts[|ts| - 1];
      var mp := Fold(p);
      FoldLongest(p);
      assert Longest(p, mp);
      var m := Fold(ts);
      assert m == Record(mp, t);
      RecordGrows(mp, t);
      forall j | 0 <= j < |ts|
        ensures ts[j].foundAt in m.terms && |ts[j].term| <= |m.terms[ts[j].foundAt]|
      {
        if j < |p| {
          assert ts[j] == p[j];
          assert p[j].foundAt in mp.terms;
        }
      }
    }
  }

  /** No key is inserted twice. */
  lemma {:induction false} FoldDistinct(ts: seq<TermFound>)
    ensures Arrays.NoDup(Fold(ts).keys)
  {
    if ts != [] {
      FoldDistinct(ts[..|ts| - 1]);
    }
  }

  ghost predicate Increasing(keys: seq<int>)
  {
    forall i, j | 0 <= i < j < |keys| :: keys[i] < keys[j]
  }

  lemma IncreasingAppend(keys: seq<int>, k: int)
    requires Increasing(keys) && forall i | 0 <= i < |keys| :: keys[i] < k
    ensures Increasing(keys + [k])
  {
    var r := keys + [k];
    forall i, j | 0 <= i < j < |r| ensures r[i] < r[j] {
      assert r[i] == keys[i];
    }
  }

  /** When every entry sits no later than `at` and `at` is not yet a key,
      every key of `m` is below `at`. */
  lemma KeysBefore(p: seq<TermFound>, m: FoundsAt, at: int)
    requires Witnessed(p, m) && at !in m.terms
    requires forall i | 0 <= i < |m.keys| :: m.keys[i] in m.terms
    requires forall j | 0 <= j < |p| :: p[j].foundAt <= at
    ensures forall i | 0 <= i < |m.keys| :: m.keys[i] < at
  {
    forall i | 0 <= i < |m.keys| ensures m.keys[i] < at {
      var k := m.keys[i];
      var j :| 0 <= j < |p| && p[j].foundAt == k && p[j].term == m.terms[k];
    }
  }

  /** Over entries sorted by position, the keys come out in increasing order. */
  lemma {:induction false} FoldAscending(ts: seq<TermFound>)
    requires SortedByFoundAt(ts)
    ensures Increasing(Fold(ts).keys)
  {
    if ts != [] {
      var p := ts[..|ts| - 1];
      var t := ts[|ts| - 1];
      assert SortedByFoundAt(p);
      FoldAscending(p);
      var m := Fold(p);
      assert Fold(ts) == Record(m, t);
      if t.foundAt !in m.terms {
        FoldWitness(p);
        forall j | 0 <= j < |p| ensures p[j].foundAt <= t.foundAt {
          assert p[j] == ts[j];
        }
        KeysBefore(p, m, t.foundAt);
        assert Fold(ts).keys == m.keys + [t.foundAt];
        IncreasingAppend(m.keys, t.foundAt);
      } else {
        assert Fold(ts).keys == m.keys;
      }
    }
  }

  /** Each highlight starts where some entry was found and covers that
      entry's term, the longest of those found there. */
  lemma HighlightsLongest(ts: seq<TermFound>)
    ensures var r := TitleHighlights(ts);
      && (forall i | 0 <= i < |r| :: exists j | 0 <= j < |ts| ::
            ts[j].foundAt == r[i].from && r[i].to == r[i].from + |ts[j].term|)
      && (forall i, j | 0 <= i < |r| && 0 <= j < |ts| && ts[j].foundAt == r[i].from ::
            |ts[j].term| <= r[i].to - r[i].from)
  {
    var m := Fold(ts);
    var r := TitleHighlights(ts);
    FoldWitness(ts);
    FoldLongest(ts);
    assert Witnessed(ts, m) && Longest(ts, m);
    forall i | 0 <= i < |r| ensures exists j | 0 <= j < |ts| ::
      ts[j].foundAt == r[i].from && r[i].to == r[i].from + |ts[j].term|
    {
      assert m.keys[i] in m.terms;
    }
  }

  /** Every position where an entry was found starts a highlight. */
  lemma HighlightsCover(ts: seq<TermFound>)
    ensures var r := TitleHighlights(ts);
      forall j | 0 <= j < |ts| :: exists i | 0 <= i < |r| :: r[i].from == ts[j].foundAt
  {
    var m := Fold(ts);
    var r := TitleHighlights(ts);
    FoldLongest(ts);
    assert Longest(ts, m);
    forall j | 0 <= j < |ts| ensures exists i | 0 <= i < |r| :: r[i].from == ts[j].foundAt {
      assert ts[j].foundAt in m.terms;
      assert ts[j].foundAt in m.keys;
      var i :| 0 <= i < |m.keys| && m.keys[i] == ts[j].foundAt;
      assert r[i].from == ts[j].foundAt;
    }
  }

  /** The highlight an entry's position starts covers at least its term. */
  lemma HighlightFor(ts: seq<TermFound>, t: TermFound)
    requires t in ts
    ensures var r := TitleHighlights(ts);
      exists i | 0 <= i < |r| :: r[i].from == t.foundAt && |t.term| <= r[i].to - r[i].from
  {
    var m := Fold(ts);
    var r := TitleHighlights(ts);
    FoldLongest(ts);
    assert Longest(ts, m);
    var j :| 0 <= j < |ts| && ts[j] == t;
    assert t.foundAt in m.terms;
    assert t.foundAt in m.keys;
    var i :| 0 <= i < |m.keys| && m.keys[i] == t.foundAt;
    assert r[i].from == t.foundAt;
  }

  /** At most one highlight starts at a position; over entries sorted by
      position, highlights come in increasing order of their start. */
  lemma HighlightsOrdered(ts: seq<TermFound>)
    ensures var r := TitleHighlights(ts);
      && (forall i, k | 0 <= i < k < |r| :: r[i].from != r[k].from)
      && (SortedByFoundAt(ts) ==> forall i, k | 0 <= i < k < |r| :: r[i].from < r[k].from)
  {
    var m := Fold(ts);
    var r := TitleHighlights(ts);
    assert forall i | 0 <= i < |r| :: r[i].from == m.keys[i];
    FoldDistinct(ts);
    if SortedByFoundAt(ts) {
      FoldAscending(ts);
    }
  }

  /** `createTitleHighlightsFromFoundTerms(terms)`: the `forEach` fills the
      Map, whose entries, in insertion order, become the highlights. */
  method CreateTitleHighlightsFromFoundTerms(ts: seq<TermFound>) returns (r: seq<Highlight>)
    ensures r == TitleHighlights(ts)
  {
    var foundsAt := FoundsAt([], map[]);
    for i := 0 to |ts|
      invariant foundsAt == Fold(ts[..i])
    {
      var t := ts[i];
      if t.foundAt !in foundsAt.terms || |foundsAt.terms[t.foundAt]| < |t.term| {
        var keys := if t.foundAt in foundsAt.terms then foundsAt.keys else foundsAt.keys + [t.foundAt];
        foundsAt := FoundsAt(keys, foundsAt.terms[t.foundAt := t.term]);
      }
      assert ts[..i + 1][..i] == ts[..i];
    }
    assert ts[..|ts|] == ts;
    r := Entries(foundsAt);
  }

  // ---------------------------------------------------------------------------
  // createTermsFound, isMatchingTerms, findLocalItems
  // ---------------------------------------------------------------------------

  /** The entries `createTermsFound` sorts: each term with the position
      `indexOf` finds it at in the lowercased title. */
  function FoundTerms(title: string, terms: seq<string>): seq<TermFound>
  {
    seq(|terms|, i requires 0 <= i < |terms| => TermFound(terms[i], StringIndexOf(Lower(title), terms[i])))
  }

  /** `createTermsFound(title, terms)` */
  function CreateTermsFound(title: string, terms: seq<string>): seq<Highlight>
  {
    TitleHighlights(SortByFoundAt(FoundTerms(title, terms)))
  }

  /** Every term occurs in the lowercased title, as `indexOf` tells. */
  ghost predicate AllFound(title: string, terms: seq<string>)
  {
    forall i | 0 <= i < |terms| :: StringIndexOf(Lower(title), terms[i]) >= 0
  }

  /** The highlights of a title come in increasing order of their start. */
  lemma TermsFoundOrdered(title: string, terms: seq<string>)
    ensures var r := CreateTermsFound(title, terms);
      forall i, k | 0 <= i < k < |r| :: r[i].from < r[k].from
  {
    HighlightsOrdered(SortByFoundAt(FoundTerms(title, terms)));
  }

  /** An entry that records one of `terms` with the position `indexOf`
      finds it at in `lowered`. */
  ghost predicate Placed(lowered: string, terms: seq<string>, t: TermFound)
  {
    t.term in terms && t.foundAt == StringIndexOf(lowered, t.term)
  }

  ghost predicate AllPlaced(lowered: string, terms: seq<string>, ts: seq<TermFound>)
  {
    forall j | 0 <= j < |ts| :: Placed(lowered, terms, ts[j])
  }

  /** Sorting keeps the entries: each sorted entry records a term where it is
      found. */
  lemma SortedPlaced(title: string, terms: seq<string>)
    ensures AllPlaced(Lower(title), terms, SortByFoundAt(FoundTerms(title, terms)))
  {
    var ft := FoundTerms(title, terms);
    var s := SortByFoundAt(ft);
    forall j | 0 <= j < |s| ensures Placed(Lower(title), terms, s[j]) {
      assert s[j] in multiset(s);
      assert s[j] in ft;
    }
  }

  /** When every term occurs, the `i`th highlight lies inside the title and
      covers one of the terms in its lowercased form. */
  lemma HighlightInTitle(title: string, terms: seq<string>, i: int)
    requires AllFound(title, terms) && 0 <= i < |CreateTermsFound(title, terms)|
    ensures var h := CreateTermsFound(title, terms)[i];
      0 <= h.from <= h.to <= |title| && Lower(title)[h.from..h.to] in terms
  {
    var s := SortByFoundAt(FoundTerms(title, terms));
    var r := TitleHighlights(s);
    assert CreateTermsFound(title, terms) == r;
    HighlightsLongest(s);
    SortedPlaced(title, terms);
    var j :| 0 <= j < |s| && s[j].foundAt == r[i].from && r[i].to == r[i].from + |s[j].term|;
    assert Placed(Lower(title), terms, s[j]);
    LowerAt(title);
    PlacedSpan(title, terms, s[j], r[i]);
  }

  /** A highlight spanning a term where `indexOf` found it lies inside the
      title and covers that term. */
  lemma PlacedSpan(title: string, terms: seq<string>, t: TermFound, h: Highlight)
    requires AllFound(title, terms) && Placed(Lower(title), terms, t)
    requires h.from == t.foundAt && h.to == h.from + |t.term|
    requires |Lower(title)| == |title|
    ensures 0 <= h.from <= h.to <= |title| && Lower(title)[h.from..h.to] in terms
  {
    var lowered := Lower(title);
    var m :| 0 <= m < |terms| && terms[m] == t.term;
    assert StringIndexOf(lowered, terms[m]) >= 0;
    StringIndexOfFirst(lowered, t.term);
    assert At(lowered, t.term, t.foundAt);
  }

  /** When every term occurs, each highlight lies inside the title and covers
      one of the terms in its lowercased form. */
  lemma TermsFoundInTitle(title: string, terms: seq<string>)
    requires AllFound(title, terms)
    ensures var r := CreateTermsFound(title, terms);
      forall i | 0 <= i < |r| ::
        0 <= r[i].from <= r[i].to <= |title| && Lower(title)[r[i].from..r[i].to] in terms
  {
    forall i | 0 <= i < |CreateTermsFound(title, terms)| {
      HighlightInTitle(title, terms, i);
    }
  }

  /** The sorted entries of a title hold the entry of each term. */
  lemma SortOf(title: string, terms: seq<string>, j: int) returns (s: seq<TermFound>)
    requires 0 <= j < |terms|
    ensures s == SortByFoundAt(FoundTerms(title, terms))
    ensures TermFound(terms[j], StringIndexOf(Lower(title), terms[j])) in s
  {
    var ft := FoundTerms(title, terms);
    s := SortByFoundAt(ft);
    assert ft[j] == TermFound(terms[j], StringIndexOf(Lower(title), terms[j]));
    assert ft[j] in multiset(ft);
  }

  /** The position `indexOf` finds the `j`th term at starts a highlight at
      least as long as the term. */
  lemma TermCovered(title: string, terms: seq<string>, j: int)
    requires 0 <= j < |terms|
    ensures var r := CreateTermsFound(title, terms);
      exists i | 0 <= i < |r| ::
        r[i].from == StringIndexOf(Lower(title), terms[j]) && |terms[j]| <= r[i].to - r[i].from
  {
    var t := TermFound(terms[j], StringIndexOf(Lower(title), terms[j]));
    var s := SortOf(title, terms, j);
    var r := TitleHighlights(s);
    assert CreateTermsFound(title, terms) == r;
    HighlightFor(s, t);
    var i :| 0 <= i < |r| && r[i].from == t.foundAt && |t.term| <= r[i].to - r[i].from;
    assert r[i].from == StringIndexOf(Lower(title), terms[j]) && |terms[j]| <= r[i].to - r[i].from;
  }

  /** Each term's first occurrence in the lowercased title starts a
      highlight at least as long as the term. */
  lemma TermsFoundCover(title: string, terms: seq<string>)
    ensures var r := CreateTermsFound(title, terms);
      forall j | 0 <= j < |terms| :: exists i | 0 <= i < |r| ::
        r[i].from == StringIndexOf(Lower(title), terms[j]) && |terms[j]| <= r[i].to - r[i].from
  {
    var r := CreateTermsFound(title, terms);
    forall j | 0 <= j < |terms| ensures exists i | 0 <= i < |r| ::
      r[i].from == StringIndexOf(Lower(title), terms[j]) && |terms[j]| <= r[i].to - r[i].from
    {
      TermCovered(title, terms, j);
    }
  }

  /** `t` is a substring of `s`. */
  ghost predicate Occurs(t: string, s: string)
  {
    exists i :: At(s, t, i)
  }

  /** Every term is a substring of `s`. */
  ghost predicate MatchesAll(terms: seq<string>, s: string)
  {
    forall k | 0 <= k < |terms| :: Occurs(terms[k], s)
  }

  /** `LocalSearchEntry`: a found item and the stretches of its title to
      draw in bold. */
  datatype Entry = Entry(item: Id, highlights: seq<Highlight>)

  /** `LocalSearchResults` */
  datatype LocalSearchResults = LocalSearchResults(items: seq<Entry>, term: string)

  const MaxItemsToFind := 25

  /** `isMatchingTerms(item)`: the item with its highlights when `indexOf`
      finds every term in its lowercased title. */
  function IsMatchingTerms(title: map<Id, string>, terms: seq<string>, item: Id): Option<Entry>
  {
    if item !in title then None
    else
      var loweredTitle := Lower(title[item]);
      var indexes := seq(|terms|, i requires 0 <= i < |terms| => StringIndexOf(loweredTitle, terms[i]));
      if forall i | 0 <= i < |indexes| :: indexes[i] >= 0 then
        Some(Entry(item, CreateTermsFound(title[item], terms)))
      else None
  }

  /** An item matches exactly when every term is a substring of its
      lowercased title; its entry then carries the highlights of its title. */
  lemma IsMatchingIff(title: map<Id, string>, terms: seq<string>, item: Id)
    ensures var r := IsMatchingTerms(title, terms, item);
      && (r.Some? <==> item in title && MatchesAll(terms, Lower(title[item])))
      && (r.Some? ==> r.value == Entry(item, CreateTermsFound(title[item], terms)) && AllFound(title[item], terms))
  {
    if item in title {
      var lowered := Lower(title[item]);
      forall k | 0 <= k < |terms| ensures StringIndexOf(lowered, terms[k]) >= 0 <==> Occurs(terms[k], lowered) {
        StringIndexOfFirst(lowered, terms[k]);
        if StringIndexOf(lowered, terms[k]) >= 0 {
          assert At(lowered, terms[k], StringIndexOf(lowered, terms[k]));
        }
      }
      var indexes := seq(|terms|, i requires 0 <= i < |terms| => StringIndexOf(lowered, terms[i]));
      assert forall i | 0 <= i < |indexes| :: indexes[i] == StringIndexOf(lowered, terms[i]);
      assert (forall i | 0 <= i < |indexes| :: indexes[i] >= 0) <==> AllFound(title[item], terms);
    }
  }

  /** `isMatchingTerms`, as the callback handed to the walk. */
  function Matcher(title: map<Id, string>, terms: seq<string>): Id -> Option<Entry>
  {
    (item: Id) => IsMatchingTerms(title, terms, item)
  }

  /** What the capped walk returns: entries for items of the subtree whose
      titles hold every term; and, short of the cap, every such item. */
  lemma FoundItems(f: Forest, rootItem: Id, terms: seq<string>, items: seq<Entry>)
    requires f.Valid() && rootItem in f.children
    requires items == Take(Chosen(Matcher(f.title, terms), Bfs(f, [rootItem])), MaxItemsToFind)
    ensures |items| <= MaxItemsToFind
    ensures forall k | 0 <= k < |items| ::
      && items[k].item in f.children && items[k].item in f.title
      && InSubtree(f, items[k].item, rootItem)
      && MatchesAll(terms, Lower(f.title[items[k].item]))
      && items[k].highlights == CreateTermsFound(f.title[items[k].item], terms)
    ensures |items| < MaxItemsToFind ==>
      forall y | y in Descendants(f, rootItem) && y in f.title && MatchesAll(terms, Lower(f.title[y])) ::
        exists k | 0 <= k < |items| :: items[k].item == y
    ensures |items| < MaxItemsToFind && rootItem in f.title && MatchesAll(terms, Lower(f.title[rootItem])) ==>
      exists k | 0 <= k < |items| :: items[k].item == rootItem
    ensures |items| < MaxItemsToFind && f.Attached() ==>
      forall y | y in f.children && InSubtree(f, y, rootItem) && y in f.title && MatchesAll(terms, Lower(f.title[y])) ::
        exists k | 0 <= k < |items| :: items[k].item == y
  {
    var fm := Matcher(f.title, terms);
    var walk := Bfs(f, [rootItem]);
    var all := Chosen(fm, walk);
    BfsSubtree(f, rootItem);
    ChosenFrom(fm, walk);
    forall k | 0 <= k < |items|
      ensures && items[k].item in f.children && items[k].item in f.title
        && InSubtree(f, items[k].item, rootItem)
        && MatchesAll(terms, Lower(f.title[items[k].item]))
        && items[k].highlights == CreateTermsFound(f.title[items[k].item], terms)
    {
      assert items[k] == all[k];
      var j :| 0 <= j < |walk| && fm(walk[j]).Some? && fm(walk[j]).value == all[k];
      IsMatchingIff(f.title, terms, walk[j]);
      assert walk[j] in walk;
    }
    if |items| < MaxItemsToFind {
      assert items == all;
      forall y | (y == rootItem || y in Descendants(f, rootItem)) && y in f.title && MatchesAll(terms, Lower(f.title[y]))
        ensures exists k | 0 <= k < |items| :: items[k].item == y
      {
        assert y in walk;
        var j :| 0 <= j < |walk| && walk[j] == y;
        IsMatchingIff(f.title, terms, y);
        ChosenHas(fm, walk, j);
        var k :| 0 <= k < |all| && all[k] == fm(y).value;
        assert items[k].item == y;
      }
      if f.Attached() {
        forall y | y in f.children && InSubtree(f, y, rootItem) && y != rootItem
          ensures y in Descendants(f, rootItem)
        {
          DescendantsComplete(f, rootItem, y);
        }
      }
    }
  }

  /** `findLocalItems(rootItem, term)`: the first 25 matching entries, in
      breadth-first order from `rootItem`, with the term it was given. */
  method FindLocalItems(f: Forest, rootItem: Id, term: string) returns (r: LocalSearchResults)
    requires f.Valid() && rootItem in f.children
    ensures r.term == term && |r.items| <= MaxItemsToFind
    ensures r.items == Take(Chosen(Matcher(f.title, Terms(term)), Bfs(f, [rootItem])), MaxItemsToFind)
    ensures forall k | 0 <= k < |r.items| ::
      && r.items[k].item in f.title && InSubtree(f, r.items[k].item, rootItem)
      && MatchesAll(Terms(term), Lower(f.title[r.items[k].item]))
      && r.items[k].highlights == CreateTermsFound(f.title[r.items[k].item], Terms(term))
    ensures |r.items| < MaxItemsToFind ==>
      forall y | y in Descendants(f, rootItem) && y in f.title && MatchesAll(Terms(term), Lower(f.title[y])) ::
        exists k | 0 <= k < |r.items| :: r.items[k].item == y
    ensures |r.items| < MaxItemsToFind && f.Attached() ==>
      forall y | y in f.children && InSubtree(f, y, rootItem) && y in f.title && MatchesAll(Terms(term), Lower(f.title[y])) ::
        exists k | 0 <= k < |r.items| :: r.items[k].item == y
  {
    var terms := Terms(term);
    var items := TraverseChildrenBfs(f, rootItem, Matcher(f.title, terms), MaxItemsToFind);
    FoundItems(f, rootItem, terms, items);
    r := LocalSearchResults(items, term);
  }

  // ---------------------------------------------------------------------------
  // createRowTitleWithHighlightsFromTerms
  // ---------------------------------------------------------------------------

  /** A piece of a row's title, drawn bold or not. */
  datatype Part = Part(text: string, isBold: bool)

  /** Where `slice` puts an index `k` into a string of length `len`: counted
      from the end when negative, then clamped to the string. */
  function SliceIndex(len: nat, k: int): (r: nat)
    ensures r <= len
    ensures 0 <= k <= len ==> r == k
  {
    if k < 0 then (if len + k < 0 then 0 else len + k) else if k > len then len else k
  }

  /** `s.slice(start, end)`: empty when the clamped end is not past the start. */
  function Slice(s: string, start: int, end: int): (r: string)
    ensures 0 <= start <= end <= |s| ==> r == s[start..end]
  {
    var a := SliceIndex(|s|, start);
    var b := SliceIndex(|s|, end);
    if a < b then s[a..b] else []
  }

  /** The text the parts spell out, one after the other. */
  function Text(parts: seq<Part>): string
  {
    if parts == [] then [] else parts[0].text + Text(parts[1..])
  }

  lemma {:induction false} TextAppend(a: seq<Part>, b: seq<Part>)
    ensures Text(a + b) == Text(a) + Text(b)
  {
    if a == [] {
      assert a + b == b;
    } else {
      assert (a + b)[1..] == a[1..] + b;
      TextAppend(a[1..], b);
    }
  }

  /** Two adjacent stretches of a string make one. */
  lemma SliceJoin(s: string, a: int, b: int, c: int)
    requires 0 <= a <= b <= c <= |s|
    ensures s[a..b] + s[b..c] == s[a..c]
  {
  }

  /** The text of a plain part followed by a bold one, then more parts. */
  lemma TextPair(p: Part, q: Part, rest: seq<Part>)
    ensures Text([p, q] + rest) == p.text + q.text + Text(rest)
  {
    assert ([p, q] + rest)[1..] == [q] + rest;
    assert ([q] + rest)[1..] == rest;
  }

  /** The `map(...).flat()` of the source: for each highlight, the plain text
      from where the previous one ended (`prev`) up to it, then its bold text. */
  function PartsFrom(hs: seq<Highlight>, title: string, prev: int): seq<Part>
  {
    if hs == [] then []
    else
      [Part(Slice(title, prev, hs[0].from), false), Part(Slice(title, hs[0].from, hs[0].to), true)]
      + PartsFrom(hs[1..], title, hs[0].to)
  }

  /** `createRowTitleWithHighlightsFromTerms(highlights, title)` as written:
      the parts, then the rest of the title after the last highlight; with no
      highlight, reading the last one's `to` throws. */
  function CreateRowTitleWithHighlightsFromTerms(hs: seq<Highlight>, title: string): (r: Result<seq<Part>>)
    ensures r.Err? <==> hs == []
    ensures r.Ok? ==> |r.value| == 2 * |hs| + 1
  {
    if hs == [] then Err(NoHighlights)
    else
      PartsCount(hs, title, 0);
      Ok(PartsFrom(hs, title, 0) + [Part(Slice(title, hs[|hs| - 1].to, |title|), false)])
  }

  lemma {:induction false} PartsCount(hs: seq<Highlight>, title: string, prev: int)
    ensures |PartsFrom(hs, title, prev)| == 2 * |hs|
  {
    if hs != [] {
      PartsCount(hs[1..], title, hs[0].to);
    }
  }

  /** Highlights inside the title, none starting before `prev` or before the
      previous one ends. */
  ghost predicate Apart(hs: seq<Highlight>, title: string, prev: int)
  {
    && 0 <= prev
    && (forall i | 0 <= i < |hs| :: 0 <= hs[i].from <= hs[i].to <= |title|)
    && (hs != [] ==> prev <= hs[0].from)
    && (forall i | 0 <= i < |hs| - 1 :: hs[i].to <= hs[i + 1].from)
  }

  /** Where the last highlight ends, `prev` when there is none. */
  function End(hs: seq<Highlight>, prev: int): int
  {
    if hs == [] then prev else hs[|hs| - 1].to
  }

  /** Over highlights apart from each other, the parts spell out the title
      from `prev` to the end of the last highlight, and each highlight's bold
      part is exactly its stretch of the title. */
  lemma {:induction false} PartsRebuild(hs: seq<Highlight>, title: string, prev: int)
    requires Apart(hs, title, prev) && prev <= |title|
    ensures prev <= End(hs, prev) <= |title|
    ensures Text(PartsFrom(hs, title, prev)) == title[prev..End(hs, prev)]
  {
    if hs != [] {
      var h := hs[0];
      assert Apart(hs[1..], title, h.to) by {
        forall i | 0 <= i < |hs[1..]| - 1 ensures hs[1..][i].to <= hs[1..][i + 1].from {
          assert hs[1..][i] == hs[i + 1] && hs[1..][i + 1] == hs[i + 2];
        }
      }
      PartsRebuild(hs[1..], title, h.to);
      var e := End(hs[1..], h.to);
      assert e == End(hs, prev);
      var rest := PartsFrom(hs[1..], title, h.to);
      TextPair(Part(title[prev..h.from], false), Part(title[h.from..h.to], true), rest);
      SliceJoin(title, prev, h.from, h.to);
      SliceJoin(title, prev, h.to, e);
    }
  }

  /** The bold parts: the `2i+1`th part is the `i`th highlight's stretch. */
  lemma {:induction false} PartsBold(hs: seq<Highlight>, title: string, prev: int, i: int)
    requires Apart(hs, title, prev) && 0 <= i < |hs|
    ensures |PartsFrom(hs, title, prev)| == 2 * |hs|
    ensures PartsFrom(hs, title, prev)[2 * i + 1] == Part(title[hs[i].from..hs[i].to], true)
    ensures !PartsFrom(hs, title, prev)[2 * i].isBold
  {
    PartsCount(hs, title, prev);
    if i > 0 {
      assert Apart(hs[1..], title, hs[0].to) by {
        forall k | 0 <= k < |hs[1..]| - 1 ensures hs[1..][k].to <= hs[1..][k + 1].from {
          assert hs[1..][k] == hs[k + 1] && hs[1..][k + 1] == hs[k + 2];
        }
      }
      PartsBold(hs[1..], title, hs[0].to, i - 1);
    }
  }

  /** As written, the row of a title with highlights apart from each other
      spells out the title. */
  lemma RowTitleApart(hs: seq<Highlight>, title: string)
    requires hs != [] && Apart(hs, title, 0)
    ensures CreateRowTitleWithHighlightsFromTerms(hs, title).Ok?
    ensures Text(CreateRowTitleWithHighlightsFromTerms(hs, title).value) == title
  {
    var body := PartsFrom(hs, title, 0);
    var last := hs[|hs| - 1].to;
    PartsRebuild(hs, title, 0);
    var tail := [Part(Slice(title, last, |title|), false)];
    TextAppend(body, tail);
    assert Text(tail) == title[last..|title|];
    SliceJoin(title, 0, last, |title|);
  }

  /** As written, over highlights apart from each other, the parts alternate
      plain and bold, and each highlight's stretch of the title is bold. */
  lemma RowTitleBold(hs: seq<Highlight>, title: string)
    requires hs != [] && Apart(hs, title, 0)
    ensures CreateRowTitleWithHighlightsFromTerms(hs, title).Ok?
    ensures var parts := CreateRowTitleWithHighlightsFromTerms(hs, title).value;
      && (forall i | 0 <= i < |hs| :: parts[2 * i + 1] == Part(title[hs[i].from..hs[i].to], true))
      && (forall k | 0 <= k < |parts| :: parts[k].isBold <==> k % 2 == 1)
  {
    var body := PartsFrom(hs, title, 0);
    var parts := CreateRowTitleWithHighlightsFromTerms(hs, title).value;
    PartsCount(hs, title, 0);
    assert parts == body + [Part(Slice(title, hs[|hs| - 1].to, |title|), false)];
    forall i | 0 <= i < |hs| ensures parts[2 * i + 1] == Part(title[hs[i].from..hs[i].to], true) {
      PartsBold(hs, title, 0, i);
    }
    forall k | 0 <= k < |parts| ensures parts[k].isBold <==> k % 2 == 1 {
      if k < |body| {
        PartsBold(hs, title, 0, k / 2);
      }
    }
  }

  /** Where the parts of the corrected row end after the highlights: never
      before `prev`. */
  function Reach(hs: seq<Highlight>, prev: int): int
  {
    if hs == [] then prev
    else
      var from := if hs[0].from < prev then prev else hs[0].from;
      var to := if hs[0].to < from then from else hs[0].to;
      Reach(hs[1..], to)
  }

  /** The parts of the corrected row: a highlight that starts before the
      previous one ended is cut to begin there, so nothing is drawn twice. */
  function PartsClamped(hs: seq<Highlight>, title: string, prev: int): seq<Part>
  {
    if hs == [] then []
    else
      var from := if hs[0].from < prev then prev else hs[0].from;
      var to := if hs[0].to < from then from else hs[0].to;
      [Part(Slice(title, prev, from), false), Part(Slice(title, from, to), true)]
      + PartsClamped(hs[1..], title, to)
  }

  /** The row of a title, corrected: with no highlight the whole title is
      one plain part, and overlapping highlights are cut at the previous
      highlight's end. */
  function RowTitle(hs: seq<Highlight>, title: string): seq<Part>
  {
    PartsClamped(hs, title, 0) + [Part(Slice(title, Reach(hs, 0), |title|), false)]
  }

  /** Highlights inside the title. */
  ghost predicate Inside(hs: seq<Highlight>, title: string)
  {
    forall i | 0 <= i < |hs| :: 0 <= hs[i].from <= hs[i].to <= |title|
  }

  lemma {:induction false} ClampedRebuild(hs: seq<Highlight>, title: string, prev: int)
    requires Inside(hs, title) && 0 <= prev <= |title|
    ensures prev <= Reach(hs, prev) <= |title|
    ensures Text(PartsClamped(hs, title, prev)) == title[prev..Reach(hs, prev)]
  {
    if hs != [] {
      var from := if hs[0].from < prev then prev else hs[0].from;
      var to := if hs[0].to < from then from else hs[0].to;
      assert Inside(hs[1..], title) by {
        forall i | 0 <= i < |hs[1..]| ensures 0 <= hs[1..][i].from <= hs[1..][i].to <= |title| {
          assert hs[1..][i] == hs[i + 1];
        }
      }
      ClampedRebuild(hs[1..], title, to);
      var e := Reach(hs[1..], to);
      assert e == Reach(hs, prev);
      var rest := PartsClamped(hs[1..], title, to);
      TextPair(Part(title[prev..from], false), Part(title[from..to], true), rest);
      SliceJoin(title, prev, from, to);
      SliceJoin(title, prev, to, e);
    }
  }

  /** The corrected row spells out the title for any highlights inside it,
      overlapping or not, and for none at all. */
  lemma RowTitleRebuilds(hs: seq<Highlight>, title: string)
    requires Inside(hs, title)
    ensures Text(RowTitle(hs, title)) == title
  {
    ClampedRebuild(hs, title, 0);
    var body := PartsClamped(hs, title, 0);
    var tail := [Part(Slice(title, Reach(hs, 0), |title|), false)];
    TextAppend(body, tail);
    assert Text(tail) == title[Reach(hs, 0)..|title|];
    SliceJoin(title, 0, Reach(hs, 0), |title|);
  }

  lemma {:induction false} ClampedAgrees(hs: seq<Highlight>, title: string, prev: int)
    requires Apart(hs, title, prev)
    ensures PartsClamped(hs, title, prev) == PartsFrom(hs, title, prev)
    ensures Reach(hs, prev) == End(hs, prev)
  {
    if hs != [] {
      assert Apart(hs[1..], title, hs[0].to) by {
        forall i | 0 <= i < |hs[1..]| - 1 ensures hs[1..][i].to <= hs[1..][i + 1].from {
          assert hs[1..][i] == hs[i + 1] && hs[1..][i + 1] == hs[i + 2];
        }
      }
      ClampedAgrees(hs[1..], title, hs[0].to);
      if |hs| > 1 {
        assert End(hs[1..], hs[0].to) == End(hs, prev);
      }
    }
  }

  /** Where the code as written does not throw and its highlights are apart,
      the corrected row is the same; with no highlights, it is the title in
      one plain part. */
  lemma RowTitleAgrees(hs: seq<Highlight>, title: string)
    ensures hs == [] ==> RowTitle(hs, title) == [Part(title, false)]
    ensures hs != [] && Apart(hs, title, 0) ==>
      CreateRowTitleWithHighlightsFromTerms(hs, title) == Ok(RowTitle(hs, title))
  {
    if hs == [] {
      assert Slice(title, 0, |title|) == title[0..|title|] == title;
    } else if Apart(hs, title, 0) {
      ClampedAgrees(hs, title, 0);
    }
  }

  // ---------------------------------------------------------------------------
  // What the code as written does on two inputs
  // ---------------------------------------------------------------------------

  /** A search text of spaces only: it has no terms, so every titled item
      matches with no highlight, and drawing its row throws. */
  lemma BlankSearchThrows(title: map<Id, string>, item: Id)
    requires item in title
    ensures Terms("  ") == []
    ensures IsMatchingTerms(title, Terms("  "), item) == Some(Entry(item, []))
    ensures CreateRowTitleWithHighlightsFromTerms([], title[item]).Err?
  {
    assert Lower("  ") == "  ";
    assert Split("  ", ' ') == ["", "", ""];
    assert Terms("  ") == [];
    assert FoundTerms(title[item], []) == [];
    assert Fold([]) == FoundsAt([], map[]);
    assert CreateTermsFound(title[item], []) == [];
  }

  lemma LowerAbc()
    ensures Lower("abc") == "abc"
  {
    assert "abc"[1..] == "bc" && "bc"[1..] == "c" && "c"[1..] == "";
  }

  lemma FindAbc()
    ensures StringIndexOf("abc", "ab") == 0
    ensures StringIndexOf("abc", "bc") == 1
  {
    assert "abc"[0..2] == "ab";
    assert "abc"[0..2] != "bc";
    assert "abc"[1..3] == "bc";
  }

  lemma SortAbc(ft: seq<TermFound>)
    requires ft == [TermFound("ab", 0), TermFound("bc", 1)]
    ensures SortByFoundAt(ft) == ft
  {
    assert ft[1..] == [TermFound("bc", 1)];
    assert ft[1..][1..] == [];
    assert SortByFoundAt(ft[1..]) == Insert(TermFound("bc", 1), []) == [TermFound("bc", 1)];
    assert Insert(ft[0], [TermFound("bc", 1)]) == ft;
  }

  lemma FoldAbc(ft: seq<TermFound>)
    requires ft == [TermFound("ab", 0), TermFound("bc", 1)]
    ensures Fold(ft) == FoundsAt([0, 1], map[0 := "ab", 1 := "bc"])
  {
    assert ft[..1] == [TermFound("ab", 0)];
    assert ft[..1][..0] == [];
    assert Fold(ft[..1]) == Record(FoundsAt([], map[]), TermFound("ab", 0)) == FoundsAt([0], map[0 := "ab"]);
    assert Fold(ft) == Record(FoundsAt([0], map[0 := "ab"]), TermFound("bc", 1));
  }

  lemma EntriesAbc(m: FoundsAt)
    requires m == FoundsAt([0, 1], map[0 := "ab", 1 := "bc"])
    ensures Entries(m) == [Highlight(0, 2), Highlight(1, 3)]
  {
    assert m.terms[0] == "ab" && m.terms[1] == "bc";
  }

  lemma FoundTermsAbc()
    ensures FoundTerms("abc", ["ab", "bc"]) == [TermFound("ab", 0), TermFound("bc", 1)]
  {
    LowerAbc();
    FindAbc();
    var ft := FoundTerms("abc", ["ab", "bc"]);
    assert ft[0] == TermFound("ab", 0) && ft[1] == TermFound("bc", 1);
  }

  /** Overlapping terms: in "abc", the terms "ab" and "bc" give the
      highlights 0..2 and 1..3. */
  lemma OverlapHighlights()
    ensures CreateTermsFound("abc", ["ab", "bc"]) == [Highlight(0, 2), Highlight(1, 3)]
  {
    var ft := [TermFound("ab", 0), TermFound("bc", 1)];
    FoundTermsAbc();
    SortAbc(ft);
    FoldAbc(ft);
    EntriesAbc(Fold(ft));
    assert CreateTermsFound("abc", ["ab", "bc"]) == Entries(Fold(SortByFoundAt(ft)));
  }

  /** On those highlights the row as written spells "abbc", drawing "b"
      twice; the corrected row spells "abc". */
  lemma OverlapRepeats()
    ensures CreateRowTitleWithHighlightsFromTerms([Highlight(0, 2), Highlight(1, 3)], "abc").Ok?
    ensures Text(CreateRowTitleWithHighlightsFromTerms([Highlight(0, 2), Highlight(1, 3)], "abc").value) == "abbc"
    ensures Text(RowTitle([Highlight(0, 2), Highlight(1, 3)], "abc")) == "abc"
  {
    WrittenAbc([Highlight(0, 2), Highlight(1, 3)], "abc");
    CorrectedAbc([Highlight(0, 2), Highlight(1, 3)], "abc");
  }

  /** The row as written for the two overlapping highlights of "abc". */
  lemma WrittenAbc(hs: seq<Highlight>, title: string)
    requires hs == [Highlight(0, 2), Highlight(1, 3)] && title == "abc"
    ensures CreateRowTitleWithHighlightsFromTerms(hs, title).Ok?
    ensures Text(CreateRowTitleWithHighlightsFromTerms(hs, title).value) == "abbc"
  {
    PartsAbc(hs, title);
    var parts := [Part("", false), Part("ab", true), Part("", false), Part("bc", true), Part("", false)];
    assert Slice(title, 3, 3) == "";
    assert CreateRowTitleWithHighlightsFromTerms(hs, title).value == parts;
    TextAbbc(parts);
  }

  /** The corrected row for the same highlights. */
  lemma CorrectedAbc(hs: seq<Highlight>, title: string)
    requires hs == [Highlight(0, 2), Highlight(1, 3)] && title == "abc"
    ensures Text(RowTitle(hs, title)) == "abc"
  {
    assert Inside(hs, title);
    RowTitleRebuilds(hs, title);
  }

  /** The parts as written for the two overlapping highlights of "abc". */
  lemma PartsAbc(hs: seq<Highlight>, title: string)
    requires hs == [Highlight(0, 2), Highlight(1, 3)] && title == "abc"
    ensures PartsFrom(hs, title, 0) == [Part("", false), Part("ab", true), Part("", false), Part("bc", true)]
  {
    assert Slice(title, 0, 0) == "" && Slice(title, 0, 2) == "ab";
    assert Slice(title, 2, 1) == "" && Slice(title, 1, 3) == "bc";
    assert hs[1..] == [Highlight(1, 3)] && hs[1..][1..] == [];
    assert PartsFrom(hs[1..], title, 2) == [Part("", false), Part("bc", true)] + PartsFrom([], title, 3);
  }

  /** The text of those parts and the final empty one. */
  lemma TextAbbc(parts: seq<Part>)
    requires parts == [Part("", false), Part("ab", true), Part("", false), Part("bc", true), Part("", false)]
    ensures Text(parts) == "abbc"
  {
    var p4 := Part("", false);
    assert Text([p4]) == "";
    TextPair(parts[2], parts[3], [p4]);
    TextPair(parts[0], parts[1], parts[2..]);
    assert parts == [parts[0], parts[1]] + parts[2..];
    assert parts[2..] == [parts[2], parts[3]] + [p4];
  }
}
