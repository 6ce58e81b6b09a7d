/** Fixed-size identifiers and the total order behind every canonical sort. */
module Hashes {
  import opened Sorting

  newtype byte = x: int | 0 <= x < 256

  type Bytes = seq<byte>

  type Hash = h: Bytes | |h| == 32 witness seq(32, _ => 0)

  /** The zero value of a hash. */
  const NO_HASH: Hash := [0, 0, 0, 0, 0, 0, 0, 0, 0, 0, 0, 0, 0, 0, 0, 0, 0, 0, 0, 0, 0, 0, 0, 0, 0, 0, 0, 0, 0, 0, 0, 0]

  /** Lexicographic comparison of byte strings: -1, 0 or 1. */
  function Compare(a: Bytes, b: Bytes): int {
    if a == [] then (if b == [] then 0 else -1)
    else if b == [] then 1
    else if a[0] < b[0] then -1
    else if a[0] > b[0] then 1
    else Compare(a[1..], b[1..])
  }

  predicate Less(a: Hash, b: Hash) {
    Compare(a, b) < 0
  }

  /** The number a byte string denotes, most significant byte first. */
  function Value(a: Bytes): nat {
    if a == [] then 0 else Value(a[..|a| - 1]) * 256 + a[|a| - 1] as int
  }

  /** Sort key of a hash. */
  function Rank(h: Hash): int {
    Value(h)
  }

  function Pow256(n: nat): nat {
    if n == 0 then 1 else 256 * Pow256(n - 1)
  }

  lemma ShiftDigits(x: int, p: int, v: int, b: int)
    ensures (x * p + v) * 256 + b == x * (256 * p) + (v * 256 + b)
  {
  }

  lemma {:induction false} ValueFromFront(a: Bytes)
    requires a != []
    ensures Value(a) == a[0] as int * Pow256(|a| - 1) + Value(a[1..])
    ensures Value(a[1..]) < Pow256(|a| - 1)
  {
    var n := |a|;
    if n == 1 {
    } else {
      var init := a[..n - 1];
      ValueFromFront(init);
      assert init[1..] == a[1..][..n - 2];
      assert a[1..][n - 2] == a[n - 1];
      assert Value(a[1..]) == Value(init[1..]) * 256 + a[n - 1] as int;
      ShiftDigits(a[0] as int, Pow256(n - 2), Value(init[1..]), a[n - 1] as int);
    }
  }

  lemma LeadingByteDecides(x: int, y: int, p: nat, u: nat, v: nat)
    requires x < y && u < p
    ensures x * p + u < y * p + v
  {
    var d := y - x - 1;
    assert d * p >= 0;
    assert (x + 1 + d) * p == x * p + p + d * p;
  }

  /** Byte order is numeric order: on strings of one length, the three-way
      comparison is the sign of the difference of the denoted numbers. */
  lemma {:induction false} CompareIsNumeric(a: Bytes, b: Bytes)
    requires |a| == |b|
    ensures Compare(a, b) < 0 <==> Value(a) < Value(b)
    ensures Compare(a, b) > 0 <==> Value(a) > Value(b)
    ensures Compare(a, b) == 0 <==> a == b
    ensures Value(a) == Value(b) ==> a == b
  {
    if a == [] {
    } else {
      ValueFromFront(a);
      ValueFromFront(b);
      CompareIsNumeric(a[1..], b[1..]);
      assert a == [a[0]] + a[1..] && b == [b[0]] + b[1..];
      var p := Pow256(|a| - 1);
      if a[0] < b[0] {
        LeadingByteDecides(a[0] as int, b[0] as int, p, Value(a[1..]), Value(b[1..]));
      } else if b[0] < a[0] {
        LeadingByteDecides(b[0] as int, a[0] as int, p, Value(b[1..]), Value(a[1..]));
      }
    }
  }

  /** At position `i` the strings first differ, and there `a` is smaller. */
  ghost predicate SmallerAt(a: Bytes, b: Bytes, i: nat) {
    i < |a| && i < |b| && a[..i] == b[..i] && a[i] < b[i]
  }

  lemma SamePrefixSameHead(a: Bytes, b: Bytes, i: nat)
    requires a != [] && b != [] && i > 0
    ensures i < |a| && i < |b| && a[..i] == b[..i] ==> a[0] == b[0]
  {
    if i < |a| && i < |b| {
      assert a[..i][0] == a[0] && b[..i][0] == b[0];
    }
  }

  /** The order of strings of one length is lexicographic. */
  lemma {:induction false} CompareIsLexicographic(a: Bytes, b: Bytes)
    requires |a| == |b|
    ensures Compare(a, b) < 0 <==> exists i :: SmallerAt(a, b, i)
    ensures Compare(a, b) == 0 <==> a == b
  {
    if a == [] {
    } else if a[0] == b[0] {
      var s, t := a[1..], b[1..];
      CompareIsLexicographic(s, t);
      assert a == [a[0]] + s && b == [b[0]] + t;
      if i: nat :| SmallerAt(s, t, i) {
        assert a[..i + 1] == [a[0]] + s[..i] && b[..i + 1] == [b[0]] + t[..i];
        assert SmallerAt(a, b, i + 1);
      }
      if i: nat :| SmallerAt(a, b, i) {
        assert i > 0;
        assert s[..i - 1] == a[..i][1..] && t[..i - 1] == b[..i][1..];
        assert SmallerAt(s, t, i - 1);
      }
    } else {
      assert a[0] < b[0] ==> SmallerAt(a, b, 0);
      forall i: nat | i > 0 ensures !SmallerAt(a, b, i) {
        SamePrefixSameHead(a, b, i);
      }
    }
  }

  lemma RankOrders()
    ensures forall a: Hash, b: Hash :: Less(a, b) <==> Rank(a) < Rank(b)
    ensures forall a: Hash, b: Hash :: Rank(a) == Rank(b) ==> a == b
  {
    forall a: Hash, b: Hash
      ensures Less(a, b) <==> Rank(a) < Rank(b)
      ensures Rank(a) == Rank(b) ==> a == b
    {
      CompareIsNumeric(a, b);
    }
  }

  /** Each canonical list states `p[i] < p[i+1]`; this is the same as having
      no repetition and no descent anywhere. */
  ghost predicate StrictlyIncreasing(hs: seq<Hash>) {
    IncreasingBy(hs, Rank)
  }

  /** The elements of a finite set of hashes in canonical order. */
  ghost function InOrder(hs: set<Hash>): seq<Hash> {
    Ascending(hs, Rank)
  }

  lemma InOrderElements(hs: set<Hash>)
    ensures StrictlyIncreasing(InOrder(hs)) && Distinct(InOrder(hs))
    ensures forall h :: h in InOrder(hs) <==> h in hs
    ensures Elements(InOrder(hs)) == hs && |InOrder(hs)| == |hs|
  {
    RankOrders();
    AscendingElements(hs, Rank);
    AscendingLength(hs, Rank);
  }

  lemma InOrderUnique(hs: set<Hash>, r: seq<Hash>)
    requires StrictlyIncreasing(r) && forall h :: h in r <==> h in hs
    ensures r == InOrder(hs)
  {
    RankOrders();
    AscendingIsUnique(hs, r, Rank);
  }

  /** Canonical order of a list of distinct hashes. */
  lemma SortDistinctHashes(hs: seq<Hash>)
    requires Distinct(hs)
    ensures Sort(hs, Rank) == InOrder(Elements(hs))
  {
    RankOrders();
    SortSorts(hs, Rank);
    SortedDistinctIsIncreasing(hs, Sort(hs, Rank), Rank);
    InOrderUnique(Elements(hs), Sort(hs, Rank));
  }

  const DIGITS := "0123456789abcdef"

  /** Two digits a byte, as `hex.EncodeToString` writes them. */
  function Hex(bs: Bytes): string {
    if bs == [] then ""
    else [DIGITS[bs[0] as int / 16], DIGITS[bs[0] as int % 16]] + Hex(bs[1..])
  }

  function DigitValue(c: char): int {
    if '0' <= c <= '9' then c as int - '0' as int else c as int - 'a' as int + 10
  }

  /** Each byte is written as its two hexadecimal digits, the high one first. */
  lemma {:induction false} HexDigits(bs: Bytes, i: nat)
    requires i < |bs|
    ensures |Hex(bs)| == 2 * |bs|
    ensures 16 * DigitValue(Hex(bs)[2 * i]) + DigitValue(Hex(bs)[2 * i + 1]) == bs[i] as int
  {
    var rest := bs[1..];
    if rest != [] {
      HexDigits(rest, if i > 0 then i - 1 else 0);
    }
    NibbleValue(bs[0] as int / 16);
    NibbleValue(bs[0] as int % 16);
  }

  lemma NibbleValue(x: int)
    requires 0 <= x < 16
    ensures DigitValue(DIGITS[x]) == x
  {
  }

  /** `HashSlice.Swap`. */
  method Swap(a: array<Hash>, i: nat, j: nat)
    requires i < a.Length && j < a.Length
    modifies a
    ensures a[..] == old(a[..])[i := old(a[j])][j := old(a[i])]
    ensures multiset(a[..]) == multiset(old(a[..]))
  {
    a[i], a[j] := a[j], a[i];
  }

  /** `HashSlice.Less`. */
  predicate LessAt(s: seq<Hash>, i: nat, j: nat)
    requires i < |s| && j < |s|
    ensures LessAt(s, i, j) <==> Rank(s[i]) < Rank(s[j])
  {
    CompareIsNumeric(s[i], s[j]);
    Less(s[i], s[j])
  }

  /** Moves the last element of a sorted prefix down to its place. */
  method SiftDown(a: array<Hash>, i: nat)
    requires i < a.Length && SortedBy(a[..i], Rank)
    modifies a
    ensures SortedBy(a[..i + 1], Rank)
    ensures multiset(a[..]) == multiset(old(a[..]))
  {
    var j := i;
    while j > 0 && LessAt(a[..], j, j - 1)
      invariant j <= i
      invariant multiset(a[..]) == multiset(old(a[..]))
      invariant forall x, y | 0 <= x < y <= i && y != j :: Rank(a[..][x]) <= Rank(a[..][y])
    {
      Swap(a, j, j - 1);
      j := j - 1;
    }
  }

  /** Sorts in place with `Less` and `Swap` only, as the sort package does on
      short slices; by `UniqueSorted` every correct algorithm gives this result. */
  method SortHashes(a: array<Hash>)
    modifies a
    ensures a[..] == Sort(old(a[..]), Rank)
  {
    ghost var was := a[..];
    for i := 0 to a.Length
      invariant SortedBy(a[..i], Rank)
      invariant multiset(a[..]) == multiset(was)
    {
      SiftDown(a, i);
    }
    assert a[..a.Length] == a[..];
    RankOrders();
    SortSorts(was, Rank);
    UniqueSorted(a[..], Sort(was, Rank), Rank);
  }
}
