/** The order in which the law editor walks the law names: Python's `sorted` on
    strings, which compares code point by code point and puts a proper prefix first. */
module Ordering {

  /** Python's `a <= b` on strings. */
  predicate Below(a: string, b: string)
    decreases |a|
  {
    a == [] || (b != [] && (a[0] < b[0] || (a[0] == b[0] && Below(a[1..], b[1..]))))
  }

  lemma {:induction false} BelowReflexive(a: string)
    ensures Below(a, a)
    decreases |a|
  {
    if a != [] {
      BelowReflexive(a[1..]);
    }
  }

  lemma {:induction false} BelowTotal(a: string, b: string)
    ensures Below(a, b) || Below(b, a)
    decreases |a|
  {
    if a != [] && b != [] && a[0] == b[0] {
      BelowTotal(a[1..], b[1..]);
    }
  }

  lemma {:induction false} BelowAntisymmetric(a: string, b: string)
    requires Below(a, b) && Below(b, a)
    ensures a == b
    decreases |a|
  {
    if a != [] {
      BelowAntisymmetric(a[1..], b[1..]);
      assert a == [a[0]] + a[1..];
      assert b == [b[0]] + b[1..];
    }
  }

  lemma {:induction false} BelowTransitive(a: string, b: string, c: string)
    requires Below(a, b) && Below(b, c)
    ensures Below(a, c)
    decreases |a|
  {
    if a != [] && a[0] == b[0] && b[0] == c[0] {
      BelowTransitive(a[1..], b[1..], c[1..]);
    }
  }

  /** Ascending in Python's string order. */
  predicate Sorted(s: seq<string>)
  {
    forall i, j :: 0 <= i < j < |s| ==> Below(s[i], s[j])
  }

  /** Puts `x` before the first element it is not above. */
  function Insert(x: string, s: seq<string>): (r: seq<string>)
    ensures multiset(r) == multiset(s) + multiset{x}
    decreases |s|
  {
    if s == [] || Below(x, s[0]) then
      [x] + s
    else
      assert s == [s[0]] + s[1..];
      [s[0]] + Insert(x, s[1..])
  }

  lemma {:induction false} InsertSorted(x: string, s: seq<string>)
    requires Sorted(s)
    ensures Sorted(Insert(x, s))
    decreases |s|
  {
    if s == [] {
    } else if Below(x, s[0]) {
      InsertFront(x, s);
    } else {
      assert Sorted(s[1..]) by {
        assert forall i, j :: 0 <= i < j < |s| - 1 ==> s[1..][i] == s[i + 1] && s[1..][j] == s[j + 1];
      }
      InsertSorted(x, s[1..]);
      InsertBehind(x, s);
    }
  }

  /** `x` in front of an ascending list it is below keeps the list ascending. */
  lemma InsertFront(x: string, s: seq<string>)
    requires Sorted(s) && s != [] && Below(x, s[0])
    ensures Sorted([x] + s)
  {
    var r := [x] + s;
    forall j | 0 < j < |r|
      ensures Below(x, r[j])
    {
      if j > 1 {
        BelowTransitive(x, s[0], s[j - 1]);
      }
    }
  }

  /** The head of an ascending list stays in front when `x` goes into its tail. */
  lemma InsertBehind(x: string, s: seq<string>)
    requires Sorted(s) && s != [] && !Below(x, s[0]) && Sorted(Insert(x, s[1..]))
    ensures Sorted(Insert(x, s))
  {
    var t := Insert(x, s[1..]);
    HeadBelowInsert(x, s);
    assert Insert(x, s) == [s[0]] + t;
    ConsSorted(s[0], t);
  }

  /** The head of an ascending list is below everything inserting `x` into its tail gives. */
  lemma HeadBelowInsert(x: string, s: seq<string>)
    requires Sorted(s) && s != [] && !Below(x, s[0])
    ensures forall j :: 0 <= j < |Insert(x, s[1..])| ==> Below(s[0], Insert(x, s[1..])[j])
  {
    BelowTotal(x, s[0]);
    var t := Insert(x, s[1..]);
    forall j | 0 <= j < |t|
      ensures Below(s[0], t[j])
    {
      var y := t[j];
      assert y in multiset(t);
      if y != x {
        assert y in multiset(s[1..]);
        var k :| 0 <= k < |s[1..]| && s[1..][k] == y;
        assert s[k + 1] == y;
      }
    }
  }

  /** An element below every element of an ascending list extends it in front. */
  lemma ConsSorted(h: string, t: seq<string>)
    requires Sorted(t) && forall j :: 0 <= j < |t| ==> Below(h, t[j])
    ensures Sorted([h] + t)
  {
    var r := [h] + t;
    forall i, j | 0 <= i < j < |r|
      ensures Below(r[i], r[j])
    {
      if i > 0 {
        assert r[i] == t[i - 1] && r[j] == t[j - 1];
      } else {
        assert r[j] == t[j - 1];
      }
    }
  }

  /** Python's `sorted(names)`, as an insertion sort. */
  function SortedNames(names: seq<string>): (r: seq<string>)
    ensures multiset(r) == multiset(names)
    decreases |names|
  {
    if names == [] then []
    else
      assert names == names[..|names| - 1] + [names[|names| - 1]];
      Insert(names[|names| - 1], SortedNames(names[..|names| - 1]))
  }

  lemma {:induction false} SortedNamesSorted(names: seq<string>)
    ensures Sorted(SortedNames(names))
    decreases |names|
  {
    if names != [] {
      SortedNamesSorted(names[..|names| - 1]);
      InsertSorted(names[|names| - 1], SortedNames(names[..|names| - 1]));
    }
  }

  /** The head of an ascending list is below everything in it. */
  lemma SortedHead(s: seq<string>, x: string)
    requires Sorted(s) && x in multiset(s)
    ensures Below(s[0], x)
  {
    var i :| 0 <= i < |s| && s[i] == x;
    if i == 0 {
      BelowReflexive(x);
    }
  }

  lemma SortedTail(s: seq<string>)
    requires Sorted(s) && s != []
    ensures Sorted(s[1..])
  {
    assert forall i :: 0 <= i < |s| - 1 ==> s[1..][i] == s[i + 1];
  }

  /** Removing equal heads from lists with the same elements leaves the same elements. */
  lemma TailsSameElements(a: seq<string>, b: seq<string>)
    requires a != [] && b != [] && a[0] == b[0] && multiset(a) == multiset(b)
    ensures multiset(a[1..]) == multiset(b[1..])
  {
    assert a == [a[0]] + a[1..];
    assert b == [b[0]] + b[1..];
    assert multiset(a) == multiset{a[0]} + multiset(a[1..]);
    assert multiset(b) == multiset{a[0]} + multiset(b[1..]);
    assert multiset(a[1..]) == multiset(a) - multiset{a[0]};
  }

  /** Two ascending lists with the same elements are the same list: the sorted order
      does not depend on how the names were listed. */
  lemma {:induction false} SortedUnique(a: seq<string>, b: seq<string>)
    requires Sorted(a) && Sorted(b) && multiset(a) == multiset(b)
    ensures a == b
    decreases |a|
  {
    if a != [] {
      assert a[0] in multiset(b);
      assert b[0] in multiset(a);
      SortedHead(a, b[0]);
      SortedHead(b, a[0]);
      BelowAntisymmetric(a[0], b[0]);
      TailsSameElements(a, b);
      SortedTail(a);
      SortedTail(b);
      SortedUnique(a[1..], b[1..]);
      assert a == [a[0]] + a[1..];
      assert b == [b[0]] + b[1..];
    }
  }

  /** Listing the same names in another order gives the same sorted list. */
  lemma SortedNamesPermutation(a: seq<string>, b: seq<string>)
    requires multiset(a) == multiset(b)
    ensures SortedNames(a) == SortedNames(b)
  {
    SortedNamesSorted(a);
    SortedNamesSorted(b);
    SortedUnique(SortedNames(a), SortedNames(b));
  }
}
