/** Sequences ordered by an integer key: the facts every canonical sort of the
    repository rests on. */
module Sorting {

  /** Nondecreasing in `key`. */
  ghost predicate SortedBy<T>(s: seq<T>, key: T -> int) {
    forall i, j | 0 <= i < j < |s| :: key(s[i]) <= key(s[j])
  }

  /** Strictly increasing in `key`: the canonical form of a set. */
  ghost predicate IncreasingBy<T>(s: seq<T>, key: T -> int) {
    forall i, j | 0 <= i < j < |s| :: key(s[i]) < key(s[j])
  }

  ghost predicate Distinct<T>(s: seq<T>) {
    forall i, j | 0 <= i < j < |s| :: s[i] != s[j]
  }

  ghost function Elements<T>(s: seq<T>): set<T> {
    set x | x in s
  }

  lemma ElementsAppend<T>(s: seq<T>, x: T)
    ensures Elements(s + [x]) == Elements(s) + {x}
  {
  }

  lemma {:induction false} ListOf<T>(s: set<T>) returns (q: seq<T>)
    ensures Elements(q) == s
    decreases |s|
  {
    if s == {} {
      q := [];
    } else {
      var x :| x in s;
      var rest := ListOf(s - {x});
      q := rest + [x];
      ElementsAppend(rest, x);
    }
  }

  lemma ElementsConcat<T>(a: seq<T>, b: seq<T>)
    ensures Elements(a + b) == Elements(a) + Elements(b)
  {
  }

  lemma NonemptySize<T>(s: set<T>)
    ensures s != {} ==> |s| > 0
  {
  }

  lemma UnionAssociates<T>(a: set<T>, b: set<T>, c: set<T>)
    ensures a + (b + c) == a + b + c
  {
  }

  ghost predicate InjectiveOn<T>(s: set<T>, key: T -> int) {
    forall x, y | x in s && y in s && key(x) == key(y) :: x == y
  }

  ghost predicate SameElements<T(!new)>(a: seq<T>, b: seq<T>) {
    forall x :: x in a <==> x in b
  }

  function Insert<T>(x: T, s: seq<T>, key: T -> int): seq<T> {
    if s == [] then [x]
    else if key(x) <= key(s[0]) then [x] + s
    else [s[0]] + Insert(x, s[1..], key)
  }

  /** Insertion sort, standing for the `sort` package of the Go library. */
  function Sort<T>(s: seq<T>, key: T -> int): seq<T> {
    if s == [] then [] else Insert(s[0], Sort(s[1..], key), key)
  }

  lemma {:induction false} InsertPermutes<T>(x: T, s: seq<T>, key: T -> int)
    ensures multiset(Insert(x, s, key)) == multiset{x} + multiset(s)
  {
    if s == [] {
    } else {
      assert s == [s[0]] + s[1..];
      InsertPermutes(x, s[1..], key);
    }
  }

  lemma {:induction false} InsertBounded<T>(x: T, s: seq<T>, key: T -> int, least: int)
    requires least <= key(x) && forall i | 0 <= i < |s| :: least <= key(s[i])
    ensures forall i | 0 <= i < |Insert(x, s, key)| :: least <= key(Insert(x, s, key)[i])
  {
    if s != [] && key(x) > key(s[0]) {
      InsertBounded(x, s[1..], key, least);
    }
  }

  lemma {:induction false} InsertSorts<T>(x: T, s: seq<T>, key: T -> int)
    requires SortedBy(s, key)
    ensures SortedBy(Insert(x, s, key), key)
  {
    if s == [] {
    } else if key(x) > key(s[0]) {
      InsertSorts(x, s[1..], key);
      InsertBounded(x, s[1..], key, key(s[0]));
    }
  }

  /** Sorting orders the sequence and moves nothing in or out. */
  lemma {:induction false} SortSorts<T>(s: seq<T>, key: T -> int)
    ensures SortedBy(Sort(s, key), key)
    ensures multiset(Sort(s, key)) == multiset(s)
  {
    if s == [] {
    } else {
      SortSorts(s[1..], key);
      InsertSorts(s[0], Sort(s[1..], key), key);
      InsertPermutes(s[0], Sort(s[1..], key), key);
      assert s == [s[0]] + s[1..];
    }
  }

  lemma PermutationKeepsElements<T(!new)>(a: seq<T>, b: seq<T>)
    requires multiset(a) == multiset(b)
    ensures SameElements(a, b) && |a| == |b|
  {
    forall x ensures x in a <==> x in b {
      assert x in a <==> x in multiset(a);
      assert x in b <==> x in multiset(b);
    }
    assert |multiset(a)| == |a| && |multiset(b)| == |b|;
  }

  lemma {:induction false} DistinctIffSetSize<T>(s: seq<T>)
    ensures Distinct(s) <==> |s| == |Elements(s)|
    ensures |Elements(s)| <= |s|
  {
    if s == [] {
    } else {
      var t := s[..|s| - 1];
      var x := s[|s| - 1];
      DistinctIffSetSize(t);
      var st := Elements(t);
      assert s == t + [x];
      assert Elements(s) == st + {x};
      if x in st {
        assert st + {x} == st;
        assert !Distinct(s);
      } else {
        assert Distinct(s) <==> Distinct(t);
      }
    }
  }

  /** A permutation of pairwise distinct keys is sorted exactly as a strictly increasing list. */
  lemma SortedDistinctIsIncreasing<T(!new)>(a: seq<T>, b: seq<T>, key: T -> int)
    requires multiset(a) == multiset(b)
    requires Distinct(a) && InjectiveOn(Elements(a), key)
    requires SortedBy(b, key)
    ensures IncreasingBy(b, key) && SameElements(a, b)
  {
    PermutationKeepsElements(a, b);
    DistinctIffSetSize(a);
    DistinctIffSetSize(b);
    assert Elements(a) == Elements(b);
    forall i, j | 0 <= i < j < |b| ensures key(b[i]) < key(b[j]) {
      assert b[i] in a && b[j] in a && b[i] != b[j];
    }
  }

  lemma SomeElement<T>(s: seq<T>)
    ensures s == [] || exists x :: x in s
  {
    if s != [] { assert s[0] in s; }
  }

  lemma HeadIsLeast<T>(s: seq<T>, i: nat, key: T -> int)
    requires IncreasingBy(s, key) && i < |s|
    ensures i == 0 || key(s[0]) < key(s[i])
  {
  }

  lemma SameLeast<T(!new)>(a: seq<T>, b: seq<T>, key: T -> int)
    requires IncreasingBy(a, key) && IncreasingBy(b, key) && SameElements(a, b) && a != []
    ensures b != [] && a[0] == b[0]
  {
    SomeElement(b);
    assert a[0] in b && b[0] in a;
    var k :| 0 <= k < |b| && b[k] == a[0];
    var m :| 0 <= m < |a| && a[m] == b[0];
    HeadIsLeast(b, k, key);
    HeadIsLeast(a, m, key);
  }

  lemma HeadIsElsewhere<T(!new)>(s: seq<T>, key: T -> int)
    requires s != [] && IncreasingBy(s, key)
    ensures forall x :: x in s[1..] <==> x in s && x != s[0]
    ensures IncreasingBy(s[1..], key)
  {
    forall x ensures x in s[1..] <==> x in s && x != s[0] {
      if x in s[1..] {
        var i :| 0 <= i < |s| - 1 && s[1..][i] == x;
        assert key(s[0]) < key(s[i + 1]);
      }
    }
  }

  /** The canonical form is unique: two strictly increasing lists of the same
      elements are the same list. */
  lemma {:induction false} UniqueIncreasing<T(!new)>(a: seq<T>, b: seq<T>, key: T -> int)
    requires IncreasingBy(a, key) && IncreasingBy(b, key) && SameElements(a, b)
    ensures a == b
  {
    if a == [] {
      SomeElement(b);
    } else {
      SameLeast(a, b, key);
      HeadIsElsewhere(a, key);
      HeadIsElsewhere(b, key);
      UniqueIncreasing(a[1..], b[1..], key);
      assert a == [a[0]] + a[1..] && b == [b[0]] + b[1..];
    }
  }

  lemma DropHead<T>(s: seq<T>, key: T -> int)
    requires s != [] && SortedBy(s, key) && InjectiveOn(Elements(s), key)
    ensures multiset(s[1..]) == multiset(s) - multiset{s[0]}
    ensures SortedBy(s[1..], key) && InjectiveOn(Elements(s[1..]), key)
  {
    assert s == [s[0]] + s[1..];
    assert Elements(s[1..]) <= Elements(s);
  }

  lemma SameHead<T(!new)>(a: seq<T>, b: seq<T>, key: T -> int)
    requires SortedBy(a, key) && SortedBy(b, key) && SameElements(a, b)
    requires InjectiveOn(Elements(a), key)
    requires a != [] && b != []
    ensures a[0] == b[0]
  {
    assert a[0] in b && b[0] in a;
    var k :| 0 <= k < |b| && b[k] == a[0];
    var m :| 0 <= m < |a| && a[m] == b[0];
    assert key(a[0]) <= key(a[m]) && key(b[0]) <= key(b[k]);
    assert a[0] in Elements(a) && b[0] in Elements(a);
  }

  /** With an injective key, sorting has one possible outcome. */
  lemma {:induction false} UniqueSorted<T(!new)>(a: seq<T>, b: seq<T>, key: T -> int)
    requires SortedBy(a, key) && SortedBy(b, key) && multiset(a) == multiset(b)
    requires InjectiveOn(Elements(a), key)
    ensures a == b
  {
    PermutationKeepsElements(a, b);
    if a != [] {
      SameHead(a, b, key);
      DropHead(a, key);
      assert Elements(b) == Elements(a);
      DropHead(b, key);
      UniqueSorted(a[1..], b[1..], key);
      assert a == [a[0]] + a[1..] && b == [b[0]] + b[1..];
    }
  }

  ghost predicate IsLeast<T>(m: T, s: set<T>, key: T -> int) {
    m in s && forall y | y in s :: key(m) <= key(y)
  }

  lemma {:induction false} LeastExists<T>(s: set<T>, key: T -> int)
    requires s != {}
    ensures exists m :: IsLeast(m, s, key)
    decreases |s|
  {
    var x :| x in s;
    if s == {x} {
      assert IsLeast(x, s, key);
    } else {
      LeastExists(s - {x}, key);
      var m :| IsLeast(m, s - {x}, key);
      assert IsLeast(if key(x) < key(m) then x else m, s, key);
    }
  }

  ghost function Least<T>(s: set<T>, key: T -> int): (m: T)
    requires s != {}
    ensures IsLeast(m, s, key)
  {
    LeastExists(s, key);
    var m :| IsLeast(m, s, key);
    m
  }

  /** The elements of `s` in increasing order of `key`. */
  ghost function Ascending<T(!new)>(s: set<T>, key: T -> int): seq<T>
    decreases |s|
  {
    if s == {} then [] else
      var m := Least(s, key);
      [m] + Ascending(s - {m}, key)
  }

  lemma PrependLeast<T(!new)>(m: T, rest: seq<T>, s: set<T>, key: T -> int)
    requires IsLeast(m, s, key) && InjectiveOn(s, key)
    requires IncreasingBy(rest, key) && Elements(rest) == s - {m}
    ensures IncreasingBy([m] + rest, key) && Elements([m] + rest) == s
  {
    forall j | 0 <= j < |rest| ensures key(m) < key(rest[j]) {
      assert rest[j] in Elements(rest);
    }
    forall x ensures x in Elements([m] + rest) <==> x in s {
      assert x in [m] + rest <==> x == m || x in Elements(rest);
    }
  }

  lemma {:induction false} AscendingElements<T(!new)>(s: set<T>, key: T -> int)
    requires InjectiveOn(s, key)
    ensures IncreasingBy(Ascending(s, key), key)
    ensures forall x :: x in Ascending(s, key) <==> x in s
    ensures Elements(Ascending(s, key)) == s
    decreases |s|
  {
    if s != {} {
      var m := Least(s, key);
      AscendingElements(s - {m}, key);
      PrependLeast(m, Ascending(s - {m}, key), s, key);
    }
    assert forall x :: x in Ascending(s, key) <==> x in Elements(Ascending(s, key));
  }

  lemma AscendingIsUnique<T(!new)>(s: set<T>, r: seq<T>, key: T -> int)
    requires InjectiveOn(s, key) && IncreasingBy(r, key)
    requires forall x :: x in r <==> x in s
    ensures r == Ascending(s, key)
  {
    AscendingElements(s, key);
    UniqueIncreasing(r, Ascending(s, key), key);
  }

  lemma AscendingLength<T(!new)>(s: set<T>, key: T -> int)
    requires InjectiveOn(s, key)
    ensures |Ascending(s, key)| == |s|
  {
  }

  /** Any element: the next step of a loop over a map, whose order Go leaves open. */
  method Pick<T>(s: set<T>) returns (x: T)
    requires s != {}
    ensures x in s
  {
    x :| x in s;
  }
}
