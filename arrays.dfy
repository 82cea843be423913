/**
 * The JavaScript array primitives the outliner relies on, with their exact
 * treatment of negative and out-of-range arguments: `indexOf`, `filter` by
 * identity, and the three shapes of `splice` the source uses.
 */
module Arrays {

  /** The position where `splice(start, ...)` acts on an array of length `len`:
      a negative start counts from the end, and both ends are clamped. */
  function SpliceStart(len: nat, start: int): (k: nat)
    ensures k <= len
    ensures 0 <= start <= len ==> k == start
    ensures start > len ==> k == len
    ensures start < 0 ==> k == (if len + start < 0 then 0 else len + start)
  {
    if start < 0 then (if len + start < 0 then 0 else len + start)
    else if start > len then len
    else start
  }

  /** `a.splice(start, 1)`: removes the element at the clamped start, if there is one. */
  function RemoveAt<T>(s: seq<T>, start: int): (r: seq<T>)
    ensures |s| > 0 && -|s| <= start < |s| ==> |r| == |s| - 1
    ensures 0 <= start < |s| ==> r == s[..start] + s[start + 1..]
    ensures start >= |s| ==> r == s
  {
    var k := SpliceStart(|s|, start);
    if k < |s| then
      assert s == s[..k] + [s[k]] + s[k + 1..];
      s[..k] + s[k + 1..]
    else s
  }

  /** `a.splice(start, 0, x)`: inserts `x` before the clamped start. */
  function InsertAt<T>(s: seq<T>, start: int, x: T): (r: seq<T>)
    ensures |r| == |s| + 1
    ensures var k := SpliceStart(|s|, start); r[k] == x && r[..k] == s[..k] && r[k + 1..] == s[k..]
  {
    var k := SpliceStart(|s|, start);
    assert s == s[..k] + s[k..];
    s[..k] + [x] + s[k..]
  }

  /** `a.splice(start)` with one argument: drops everything from the clamped start on. */
  function Truncate<T>(s: seq<T>, start: int): (r: seq<T>)
    ensures 0 <= start <= |s| ==> r == s[..start]
    ensures start > |s| ==> r == s
    ensures |r| <= |s|
  {
    s[..SpliceStart(|s|, start)]
  }

  /** The elements of an array, as a set. */
  function Members<T(==,!new)>(s: seq<T>): (r: set<T>)
    ensures forall x :: x in r <==> x in s
  {
    set x | x in s
  }

  /** `a.filter(c => c !== x)`: every occurrence of `x` dropped, the rest in order. */
  function Without<T(==)>(s: seq<T>, x: T): (r: seq<T>)
    ensures |r| <= |s|
  {
    if s == [] then []
    else
      var rest := Without(s[1..], x);
      if s[0] == x then rest else [s[0]] + rest
  }

  /** `filter` drops every occurrence of `x` and keeps every other element as
      often as it was there. */
  lemma {:induction false} WithoutCounts<T>(s: seq<T>, x: T)
    ensures multiset(Without(s, x)) == multiset(s)[x := 0]
    decreases |s|
  {
    if s != [] {
      WithoutCounts(s[1..], x);
      assert s == [s[0]] + s[1..];
    }
  }

  /** The elements `filter` keeps are exactly the ones other than `x`. */
  lemma WithoutMembers<T>(s: seq<T>, x: T)
    ensures forall c :: c in Without(s, x) <==> c in s && c != x
  {
    WithoutCounts(s, x);
    forall c ensures c in Without(s, x) <==> c in s && c != x {
      assert c in Without(s, x) <==> c in multiset(Without(s, x));
      assert c in s <==> c in multiset(s);
    }
  }

  /** After `splice(start, 0, x)` the elements are the old ones and `x`. */
  lemma InsertAtMembers<T>(s: seq<T>, start: int, x: T)
    ensures forall c :: c in InsertAt(s, start, x) <==> c in s || c == x
  {
    InsertAtCounts(s, start, x);
    forall c ensures c in InsertAt(s, start, x) <==> c in s || c == x {
      assert c in InsertAt(s, start, x) <==> c in multiset(InsertAt(s, start, x));
      assert c in s <==> c in multiset(s);
    }
  }

  /** `splice(start, 0, x)` adds one `x` and keeps every element. */
  lemma InsertAtCounts<T>(s: seq<T>, start: int, x: T)
    ensures multiset(InsertAt(s, start, x)) == multiset(s) + multiset{x}
  {
    var k := SpliceStart(|s|, start);
    assert s == s[..k] + s[k..];
  }

  /** `a.indexOf(x)`: the first position of `x`, or -1. */
  function IndexOf<T(==)>(s: seq<T>, x: T): (i: int)
    ensures -1 <= i < |s|
    ensures i == -1 <==> x !in s
    ensures 0 <= i ==> s[i] == x
  {
    if s == [] then -1
    else if s[0] == x then 0
    else
      var k := IndexOf(s[1..], x);
      if k == -1 then -1 else k + 1
  }

  /** No earlier position holds `x`. */
  lemma {:induction false} IndexOfFirst<T>(s: seq<T>, x: T, j: nat)
    requires j < |s| && s[j] == x
    ensures 0 <= IndexOf(s, x) <= j
    decreases |s|
  {
    if s[0] != x {
      IndexOfFirst(s[1..], x, j - 1);
    }
  }

  /** No element occurs twice. */
  ghost predicate NoDup<T>(s: seq<T>)
  {
    forall i, j | 0 <= i < j < |s| :: s[i] != s[j]
  }

  /** On a sequence where `x` occurs once, at `k`, filtering `x` out is removing
      the element at `k`: `removeChild` and `removeChildAt` agree. */
  lemma {:induction false} WithoutSingle<T>(s: seq<T>, x: T, k: nat)
    requires NoDup(s) && k < |s| && s[k] == x
    ensures Without(s, x) == RemoveAt(s, k)
    decreases |s|
  {
    if k == 0 {
      assert x !in s[1..];
      WithoutAbsent(s[1..], x);
    } else {
      WithoutSingle(s[1..], x, k - 1);
      assert s[0] != x;
      calc {
        Without(s, x);
        [s[0]] + Without(s[1..], x);
        [s[0]] + (s[1..][..k - 1] + s[1..][k..]);
        { assert [s[0]] + s[1..][..k - 1] == s[..k]; assert s[1..][k..] == s[k + 1..]; }
        s[..k] + s[k + 1..];
      }
    }
  }

  /** Filtering out an absent element changes nothing. */
  lemma {:induction false} WithoutAbsent<T>(s: seq<T>, x: T)
    requires x !in s
    ensures Without(s, x) == s
    decreases |s|
  {
    if s != [] {
      WithoutAbsent(s[1..], x);
      assert s == [s[0]] + s[1..];
    }
  }

  /** Filtering preserves the absence of duplicates. */
  lemma {:induction false} WithoutNoDup<T>(s: seq<T>, x: T)
    requires NoDup(s)
    ensures NoDup(Without(s, x))
    decreases |s|
  {
    if s != [] {
      WithoutNoDup(s[1..], x);
      var rest := Without(s[1..], x);
      assert s[0] !in rest by {
        WithoutMembers(s[1..], x);
        assert s[0] !in s[1..];
      }
      if s[0] != x {
        ConsNoDup(s[0], rest);
      }
    }
  }

  /** Putting an element that does not occur in front of a duplicate-free
      sequence keeps it duplicate-free. */
  lemma ConsNoDup<T>(a: T, s: seq<T>)
    requires NoDup(s) && a !in s
    ensures NoDup([a] + s)
  {
    var r := [a] + s;
    forall i, j | 0 <= i < j < |r| ensures r[i] != r[j] {
      if i == 0 {
        assert r[j] in s;
      } else {
        assert r[i] == s[i - 1] && r[j] == s[j - 1];
      }
    }
  }

  /** `splice(start, 1)` on a duplicate-free sequence leaves a duplicate-free
      sequence that holds every old element except the removed one, and only
      old elements. */
  lemma RemoveAtNoDup<T>(s: seq<T>, start: int)
    requires NoDup(s)
    ensures var r := RemoveAt(s, start); var k := SpliceStart(|s|, start);
            && NoDup(r)
            && (forall c | c in r :: c in s)
            && (k < |s| ==> s[k] !in r)
            && (forall c | c in s && (k >= |s| || c != s[k]) :: c in r)
  {
    var k := SpliceStart(|s|, start);
    if k < |s| {
      var r := RemoveAt(s, start);
      assert r == s[..k] + s[k + 1..];
      forall j | 0 <= j < |r| ensures r[j] == s[if j < k then j else j + 1] {
      }
      forall c | c in s && c != s[k] ensures c in r {
        var i :| 0 <= i < |s| && s[i] == c;
        assert r[if i < k then i else i - 1] == c;
      }
    }
  }

  /** In a duplicate-free sequence, `indexOf` finds the one position of an element. */
  lemma IndexOfNoDup<T>(s: seq<T>, k: nat)
    requires NoDup(s) && k < |s|
    ensures IndexOf(s, s[k]) == k
  {
    assert s[k] in s;
  }

  /** Inserting an absent element into a duplicate-free sequence leaves a
      duplicate-free sequence of the old elements and the new one. */
  lemma InsertAtNoDup<T>(s: seq<T>, start: int, x: T)
    requires NoDup(s) && x !in s
    ensures NoDup(InsertAt(s, start, x))
    ensures forall c | c in InsertAt(s, start, x) :: c in s || c == x
  {
    var s' := InsertAt(s, start, x);
    var k := SpliceStart(|s|, start);
    assert s' == s[..k] + [x] + s[k..];
    forall j | 0 <= j < |s'| ensures s'[j] == if j < k then s[j] else if j == k then x else s[j - 1] {
    }
  }

  /** Taking the element at `k` out and inserting it one place earlier swaps
      it with its predecessor. */
  lemma ReinsertEarlier<T>(s: seq<T>, k: nat)
    requires 0 < k < |s|
    ensures InsertAt(RemoveAt(s, k), k - 1, s[k]) == s[..k - 1] + [s[k], s[k - 1]] + s[k + 1..]
  {
    var s1 := RemoveAt(s, k);
    assert s1 == s[..k] + s[k + 1..];
    assert s1[..k - 1] == s[..k - 1];
    assert s1[k - 1..] == [s[k - 1]] + s[k + 1..];
  }

  /** Taking the element at `k` out and inserting it one place later swaps it
      with its successor; the last element goes back where it was. */
  lemma ReinsertLater<T>(s: seq<T>, k: nat)
    requires k < |s|
    ensures k + 1 < |s| ==> InsertAt(RemoveAt(s, k), k + 1, s[k]) == s[..k] + [s[k + 1], s[k]] + s[k + 2..]
    ensures k + 1 == |s| ==> InsertAt(RemoveAt(s, k), k + 1, s[k]) == s
  {
    var s1 := RemoveAt(s, k);
    assert s1 == s[..k] + s[k + 1..];
    if k + 1 < |s| {
      assert s1[..k + 1] == s[..k] + [s[k + 1]];
      assert s1[k + 1..] == s[k + 2..];
    } else {
      assert s1 == s[..k];
    }
  }

  /** Taking the element at `k` out and inserting it at `k` again restores the sequence. */
  lemma ReinsertSame<T>(s: seq<T>, k: nat)
    requires k < |s|
    ensures InsertAt(RemoveAt(s, k), k, s[k]) == s
  {
    var s1 := RemoveAt(s, k);
    assert s1 == s[..k] + s[k + 1..];
    assert s1[..k] == s[..k];
    assert s1[k..] == s[k + 1..];
  }

  /** Inserting at the length appends. */
  lemma InsertAtEnd<T>(s: seq<T>, x: T)
    ensures InsertAt(s, |s|, x) == s + [x]
  {
  }

  /** Inserting at an index inside the bounds puts the element right there. */
  lemma InsertAtInside<T>(s: seq<T>, k: nat, x: T)
    requires k <= |s|
    ensures InsertAt(s, k, x) == s[..k] + [x] + s[k..]
  {
  }

  /** Swapping two neighbours twice restores the sequence. */
  lemma SwapTwice<T>(s: seq<T>, k: nat)
    requires 0 < k < |s|
    ensures var t := s[..k - 1] + [s[k], s[k - 1]] + s[k + 1..];
            |t| == |s| && t[..k - 1] + [t[k], t[k - 1]] + t[k + 1..] == s
  {
    var t := s[..k - 1] + [s[k], s[k - 1]] + s[k + 1..];
    assert t[..k - 1] == s[..k - 1];
    assert t[k + 1..] == s[k + 1..];
    assert s == s[..k - 1] + [s[k - 1], s[k]] + s[k + 1..];
  }

  /** Dropping the element just appended gives the sequence back. */
  lemma DropAppended<T>(t: seq<T>, x: T)
    ensures (t + [x])[..|t|] + (t + [x])[|t| + 1..] == t
  {
    assert (t + [x])[..|t|] == t;
  }

  /** Putting the element at `k` back where it was taken out restores the sequence. */
  lemma PutBack<T>(s: seq<T>, k: nat)
    requires k < |s|
    ensures var rest := s[..k] + s[k + 1..];
            |rest| == |s| - 1 && rest[..k] + [s[k]] + rest[k..] == s
  {
    var rest := s[..k] + s[k + 1..];
    assert rest[..k] == s[..k];
    assert rest[k..] == s[k + 1..];
    assert s == s[..k] + [s[k]] + s[k + 1..];
  }
}
